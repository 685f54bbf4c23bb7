/**
 * The release records the hosting API hands to the generator script, and the
 * pure per-release decisions its main loop makes: which product a tag belongs
 * to, which channel a release feeds, and whether it carries an `update.json`
 * metadata asset (scripts/generate.py:29-49).
 */
module Releases {
  import opened Wrappers

  /**
   * A stand-in for the parsed metadata document that `resp.json()` returns.
   * The script only stores and writes it back out, never looks inside it, so
   * the shape of this datatype (integer numbers only, for one) affects no result.
   */
  datatype Json =
    | JNull
    | JBool(b: bool)
    | JNumber(n: int)
    | JString(s: string)
    | JArray(items: seq<Json>)
    | JObject(fields: seq<(string, Json)>)

  /**
   * A file attached to a release. `download` is what fetching the file and
   * parsing it as JSON produces; `None` stands for a fetch or parse that raises.
   */
  datatype Asset = Asset(name: string, download: Option<Json>)

  /** A release as listed by the hosting API; `publishedAt` is only ever compared. */
  datatype Release = Release(
    draft: bool,
    prerelease: bool,
    tag: string,
    publishedAt: int,
    assets: seq<Asset>)

  datatype Product = Sys11 | Wpc

  datatype Channel = Beta | Main

  /** The key of the `latest` dictionary: a (product, channel) pair. */
  datatype Key = Key(product: Product, channel: Channel)

  /** The only asset name the script looks for. */
  const UpdateJson: string := "update.json"

  function ProductName(p: Product): string {
    match p
    case Sys11 => "sys11"
    case Wpc => "wpc"
  }

  function ChannelName(c: Channel): string {
    match c
    case Beta => "beta"
    case Main => "main"
  }

  /** The tag prefix that marks a release of product `p`. */
  function TagPrefix(p: Product): (prefix: string)
    ensures prefix == ProductName(p) + "-"
  {
    match p
    case Sys11 => "sys11-"
    case Wpc => "wpc-"
  }

  /**
   * Splits a tag into product and version: a `sys11-` prefix is tested first,
   * then `wpc-`; any other tag is not a firmware release.
   */
  function ClassifyTag(tag: string): (r: Option<(Product, string)>)
    ensures r.Some? ==> TagPrefix(r.value.0) + r.value.1 == tag
    ensures r.None? <==> forall p: Product :: !(TagPrefix(p) <= tag)
  {
    if TagPrefix(Sys11) <= tag then Some((Sys11, tag[|TagPrefix(Sys11)|..]))
    else if TagPrefix(Wpc) <= tag then Some((Wpc, tag[|TagPrefix(Wpc)|..]))
    else None
  }

  /** Classification undoes tagging: a prefixed version is recognised as exactly that. */
  lemma ClassifyTagRoundTrip(p: Product, version: string)
    ensures ClassifyTag(TagPrefix(p) + version) == Some((p, version))
  {
    var tag := TagPrefix(p) + version;
    if p == Wpc {
      assert tag[0] == 'w';
    }
    assert tag[|TagPrefix(p)|..] == version;
  }

  /** The channel a release feeds: prereleases go to beta, everything else to main. */
  function ChannelFor(prerelease: bool): (c: Channel)
    ensures c == Beta <==> prerelease
    ensures c == Main <==> !prerelease
  {
    if prerelease then Beta else Main
  }

  /** The index of the first asset named exactly `update.json`, if there is one. */
  function FirstUpdateAsset(assets: seq<Asset>): (r: Option<nat>)
    ensures r.Some? ==> r.value < |assets| && assets[r.value].name == UpdateJson
    ensures r.Some? ==> forall j :: 0 <= j < r.value ==> assets[j].name != UpdateJson
    ensures r.None? <==> forall j :: 0 <= j < |assets| ==> assets[j].name != UpdateJson
  {
    if |assets| == 0 then None
    else if assets[0].name == UpdateJson then Some(0)
    else match FirstUpdateAsset(assets[1..])
      case None => None
      case Some(i) => Some(i + 1)
  }

  /** The generator's search through a release's assets, stopping at the first match. */
  method FindUpdateAsset(assets: seq<Asset>) returns (found: Option<nat>)
    ensures found == FirstUpdateAsset(assets)
  {
    var i := 0;
    while i < |assets|
      invariant 0 <= i <= |assets|
      invariant forall j :: 0 <= j < i ==> assets[j].name != UpdateJson
    {
      if assets[i].name == UpdateJson {
        return Some(i);
      }
      i := i + 1;
    }
    return None;
  }

  /**
   * The key a release would be filed under, or `None` when the loop skips it:
   * drafts, tags of no known product, and releases without an `update.json`.
   */
  function EligibleKey(r: Release): Option<Key> {
    if r.draft then None
    else match ClassifyTag(r.tag)
      case None => None
      case Some((product, _)) =>
        if FirstUpdateAsset(r.assets).None? then None
        else Some(Key(product, ChannelFor(r.prerelease)))
  }

  /**
   * A release is filed exactly when it is not a draft, its tag has a known
   * product prefix and it has an asset named `update.json`; it is filed under
   * that product and the channel its prerelease flag selects.
   */
  lemma EligibleKeyMeaning(r: Release)
    ensures EligibleKey(r).Some? <==>
      && !r.draft
      && (exists p: Product :: TagPrefix(p) <= r.tag)
      && (exists j :: 0 <= j < |r.assets| && r.assets[j].name == UpdateJson)
    ensures EligibleKey(r).Some? ==> TagPrefix(EligibleKey(r).value.product) <= r.tag
    ensures EligibleKey(r).Some? ==> (EligibleKey(r).value.channel == Beta <==> r.prerelease)
  {
  }

  /** What fetching the first `update.json` of an eligible release yields. */
  function FetchedData(r: Release): Option<Json>
    requires EligibleKey(r).Some?
  {
    r.assets[FirstUpdateAsset(r.assets).value].download
  }

  /** An eligible release whose metadata fetch raises: it stops the whole run. */
  predicate Broken(r: Release) {
    EligibleKey(r).Some? && FetchedData(r).None?
  }

  /** The four keys the `latest` dictionary can ever hold. */
  const AllKeys: set<Key> :=
    {Key(Sys11, Beta), Key(Sys11, Main), Key(Wpc, Beta), Key(Wpc, Main)}

  lemma AllKeysComplete(k: Key)
    ensures k in AllKeys
  {
    match k
    case Key(p, c) =>
      match p
      case Sys11 => if c == Beta { assert k == Key(Sys11, Beta); } else { assert k == Key(Sys11, Main); }
      case Wpc => if c == Beta { assert k == Key(Wpc, Beta); } else { assert k == Key(Wpc, Main); }
  }

  lemma AllKeysCount()
    ensures |AllKeys| == 4
  {
  }
}
