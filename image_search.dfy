/**
 * `fetchImage`: search the NASA image catalog for a term, then, for at most
 * twenty of the results in order, look up the item's asset manifest, build an
 * image record and hand it to the caller's callback. An item whose processing
 * throws is skipped; a failed catalog request is rethrown.
 */
module ImageSearch {
  import opened Wrappers
  import opened JsString
  import opened AssetUrls

  /** One entry of `item.data`: the catalog metadata of an item. */
  datatype Metadata = Metadata(title: string, description: string, nasaId: string, dateCreated: string)

  /** One entry of `item.links`; its `href` may be missing. */
  datatype Link = Link(href: Option<string>)

  /** One item of the catalog response: the asset-manifest address, the metadata array and the optional links. */
  datatype Item = Item(href: string, data: seq<Metadata>, links: Option<seq<Link>>)

  /** The record handed to the callback (`NASAImage`). */
  datatype NasaImage = NasaImage(
    title: string,
    description: string,
    nasaId: string,
    dateCreated: string,
    thumbnailUrl: string,
    fullImageUrl: string)

  /** How `fetchImage` ends: it resolves, or it rethrows the catalog request's error. */
  datatype Outcome = Resolved | CatalogRequestFailed

  /** The catalog request: the response's `collection.items`, or `None` when the request or the access throws. */
  type Catalog = string -> Option<seq<Item>>

  /** The asset-manifest request of the `n`-th item, for its `href`; `None` when it throws. */
  type AssetLookup = (nat, string) -> Option<seq<string>>

  /** At most this many catalog items are processed. */
  const MaxItems: nat := 20

  /** The catalog search address; the term is interpolated as it is. */
  function SearchUrl(search: string): string
  {
    "https://images-api.nasa.gov/search?q=" + search + "&media_type=image"
  }

  /** `items.slice(0, 20)`. */
  function Truncate(items: seq<Item>): (r: seq<Item>)
    ensures |r| <= MaxItems && |r| <= |items| && r == items[..|r|]
    ensures |items| <= MaxItems ==> r == items
    ensures |items| > MaxItems ==> |r| == MaxItems
  {
    if |items| <= MaxItems then items else items[..MaxItems]
  }

  /** `(item.links?.[0]?.href || '').replace('http://', 'https://')`. */
  function ThumbnailUrl(links: Option<seq<Link>>): string
  {
    var first: Option<string> :=
      match links
      case None => None
      case Some(ls) => if ls == [] then None else ls[0].href;
    UpgradeScheme(OrElse(first, ""))
  }

  /** The thumbnail is `''` without links, else the first link's address with its scheme upgraded. */
  lemma ThumbnailUrlSpec(links: Option<seq<Link>>)
    ensures links == None || links == Some([]) ==> ThumbnailUrl(links) == ""
    ensures links.Some? && links.value != [] ==>
      ThumbnailUrl(links) == UpgradeScheme(OrElse(links.value[0].href, ""))
    ensures links.Some? && links.value != [] && links.value[0].href.Some? ==>
      var h := links.value[0].href.value;
      (|h| >= 7 && h[..7] == "http://" ==> ThumbnailUrl(links) == "https://" + h[7..]) &&
      (!Includes(h, "http://") ==> ThumbnailUrl(links) == h)
  {
  }

  /**
   * The object literal handed to the callback, for an item whose manifest was
   * fetched. `item.data[0].title` throws when `item.data` is empty: then `None`.
   */
  function BuildRecord(item: Item, manifest: seq<string>): (r: Option<NasaImage>)
    ensures r.Some? <==> item.data != []
    ensures r.Some? ==>
      && r.value.title == item.data[0].title
      && r.value.description == item.data[0].description
      && r.value.nasaId == item.data[0].nasaId
      && r.value.dateCreated == item.data[0].dateCreated
      && r.value.thumbnailUrl == ThumbnailUrl(item.links)
      && r.value.fullImageUrl == FullImageUrl(manifest)
      && (r.value.fullImageUrl == "" || r.value.fullImageUrl in ImageUrls(manifest))
  {
    if item.data == [] then None
    else
      var meta := item.data[0];
      FullImageUrlIsImage(manifest);
      Some(NasaImage(meta.title, meta.description, meta.nasaId, meta.dateCreated,
                     ThumbnailUrl(item.links), FullImageUrl(manifest)))
  }

  /** The body of the `try` block for the `n`-th item: `None` when it throws. */
  function ProcessItem(n: nat, item: Item, lookup: AssetLookup): Option<NasaImage>
  {
    match lookup(n, item.href)
    case None => None
    case Some(manifest) => BuildRecord(item, manifest)
  }

  /** What the `try` block yields for each item, in catalog order. */
  function Outcomes(items: seq<Item>, lookup: AssetLookup): (r: seq<Option<NasaImage>>)
    ensures |r| == |items|
  {
    seq(|items|, k requires 0 <= k < |items| => ProcessItem(k, items[k], lookup))
  }

  /** The records the callback receives, given what each processed item yields. */
  function Delivered(outcomes: seq<Option<NasaImage>>): seq<NasaImage>
  {
    if outcomes == [] then []
    else
      var before := Delivered(outcomes[..|outcomes| - 1]);
      match outcomes[|outcomes| - 1]
      case None => before
      case Some(rec) => before + [rec]
  }

  /** Processing one more item appends its record, if it has one. */
  lemma DeliveredStep(outcomes: seq<Option<NasaImage>>, i: nat)
    requires i < |outcomes|
    ensures Delivered(outcomes[..i + 1]) ==
      Delivered(outcomes[..i]) + if outcomes[i].Some? then [outcomes[i].value] else []
  {
    assert outcomes[..i + 1][..i] == outcomes[..i];
  }

  /** The indices, in increasing order, of the items whose processing succeeds. */
  function Succeeded(outcomes: seq<Option<NasaImage>>): seq<nat>
  {
    if outcomes == [] then []
    else
      var before := Succeeded(outcomes[..|outcomes| - 1]);
      if outcomes[|outcomes| - 1].Some? then before + [|outcomes| - 1] else before
  }

  /** The callback fires at most once per processed item. */
  lemma {:induction false} DeliveredBound(outcomes: seq<Option<NasaImage>>)
    ensures |Delivered(outcomes)| <= |outcomes|
  {
    if outcomes != [] {
      DeliveredBound(outcomes[..|outcomes| - 1]);
    }
  }

  /** Each delivered record is the record of a succeeding item, matched up with `Succeeded`. */
  lemma {:induction false} DeliveredFromSucceeded(outcomes: seq<Option<NasaImage>>)
    ensures |Delivered(outcomes)| == |Succeeded(outcomes)|
    ensures forall j :: 0 <= j < |Succeeded(outcomes)| ==>
      Succeeded(outcomes)[j] < |outcomes| && outcomes[Succeeded(outcomes)[j]] == Some(Delivered(outcomes)[j])
  {
    if outcomes != [] {
      var init := outcomes[..|outcomes| - 1];
      DeliveredFromSucceeded(init);
      assert forall k :: 0 <= k < |init| ==> init[k] == outcomes[k];
    }
  }

  /** The succeeding items are listed in catalog order, each once. */
  lemma {:induction false} SucceededIncreasing(outcomes: seq<Option<NasaImage>>)
    ensures forall j :: 0 <= j < |Succeeded(outcomes)| ==> Succeeded(outcomes)[j] < |outcomes|
    ensures forall j, j' :: 0 <= j < j' < |Succeeded(outcomes)| ==> Succeeded(outcomes)[j] < Succeeded(outcomes)[j']
  {
    if outcomes != [] {
      SucceededIncreasing(outcomes[..|outcomes| - 1]);
    }
  }

  /** Every succeeding item is listed, whatever happened to the items before it. */
  lemma {:induction false} SucceededComplete(outcomes: seq<Option<NasaImage>>)
    ensures forall k :: 0 <= k < |outcomes| && outcomes[k].Some? ==> k in Succeeded(outcomes)
  {
    if outcomes != [] {
      var init := outcomes[..|outcomes| - 1];
      SucceededComplete(init);
      assert forall k :: 0 <= k < |init| ==> init[k] == outcomes[k];
    }
  }

  /**
   * Records arrive in catalog order, one for each item whose processing
   * succeeds, and a failing item does not keep any later item's record back.
   */
  lemma DeliveredInCatalogOrder(items: seq<Item>, lookup: AssetLookup)
    ensures |Delivered(Outcomes(items, lookup))| == |Succeeded(Outcomes(items, lookup))| <= |items|
    ensures forall j :: 0 <= j < |Succeeded(Outcomes(items, lookup))| ==>
      var k := Succeeded(Outcomes(items, lookup))[j];
      k < |items| && ProcessItem(k, items[k], lookup) == Some(Delivered(Outcomes(items, lookup))[j])
    ensures forall j, j' :: 0 <= j < j' < |Succeeded(Outcomes(items, lookup))| ==>
      Succeeded(Outcomes(items, lookup))[j] < Succeeded(Outcomes(items, lookup))[j']
    ensures forall k :: 0 <= k < |items| && ProcessItem(k, items[k], lookup).Some? ==>
      k in Succeeded(Outcomes(items, lookup))
  {
    var outcomes := Outcomes(items, lookup);
    DeliveredBound(outcomes);
    DeliveredFromSucceeded(outcomes);
    SucceededIncreasing(outcomes);
    SucceededComplete(outcomes);
  }

  /** When nothing fails, every item is delivered, in order. */
  lemma {:induction false} DeliveredAll(outcomes: seq<Option<NasaImage>>)
    requires forall k :: 0 <= k < |outcomes| ==> outcomes[k].Some?
    ensures |Delivered(outcomes)| == |outcomes|
    ensures forall k :: 0 <= k < |outcomes| ==> Some(Delivered(outcomes)[k]) == outcomes[k]
  {
    if outcomes != [] {
      var init := outcomes[..|outcomes| - 1];
      DeliveredAll(init);
    }
  }

  /**
   * `fetchImage(search, callback)`: the records passed to the callback, in the
   * order of the calls, and how the returned promise settles.
   */
  method FetchImage(search: string, catalog: Catalog, lookup: AssetLookup)
    returns (outcome: Outcome, delivered: seq<NasaImage>)
    ensures catalog(SearchUrl(search)).None? ==> outcome == CatalogRequestFailed && delivered == []
    ensures catalog(SearchUrl(search)).Some? ==>
      outcome == Resolved && delivered == Delivered(Outcomes(Truncate(catalog(SearchUrl(search)).value), lookup))
    ensures |delivered| <= MaxItems
  {
    delivered := [];
    var response := catalog(SearchUrl(search));
    if response.None? {
      return CatalogRequestFailed, delivered;
    }
    var items := Truncate(response.value);
    ghost var outcomes := Outcomes(items, lookup);
    for i := 0 to |items|
      invariant delivered == Delivered(outcomes[..i])
    {
      var rec := ProcessItem(i, items[i], lookup);
      assert rec == outcomes[i];
      DeliveredStep(outcomes, i);
      if rec.Some? {
        delivered := delivered + [rec.value];
      }
    }
    assert outcomes[..|items|] == outcomes;
    DeliveredBound(outcomes);
    outcome := Resolved;
  }
}
