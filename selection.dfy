/**
 * The release-selection pass of the generator's `main`
 * (scripts/generate.py:27-61): walk the release list and keep, per
 * (product, channel) key, the release with the latest publication time.
 */
module Selection {
  import opened Wrappers
  import opened Releases

  /** What the script stores per key: the release and its parsed metadata. */
  datatype Entry = Entry(release: Release, data: Json)

  type Latest = map<Key, Entry>

  /**
   * The result of the pass: either the finished `latest` dictionary, or the
   * tag of the release whose metadata fetch raised and ended the run.
   */
  datatype Outcome = Aborted(tag: string) | Done(latest: Latest)

  /**
   * The effect of one release on `latest` (one iteration of the loop body).
   * Under the release's own key, the result is either the release with its
   * metadata or the entry already stored; it is never older than either; and
   * a release that is not strictly newer than the stored one leaves it in place.
   */
  function Step(latest: Latest, r: Release): (o: Outcome)
    ensures o.Aborted? <==> Broken(r)
    ensures o.Aborted? ==> o.tag == r.tag
    ensures EligibleKey(r).None? ==> o == Done(latest)
    ensures o.Done? && EligibleKey(r).Some? ==>
      o.latest.Keys == latest.Keys + {EligibleKey(r).value}
    ensures o.Done? ==> forall k :: k in latest && Some(k) != EligibleKey(r) ==>
      k in o.latest && o.latest[k] == latest[k]
    ensures o.Done? && EligibleKey(r).Some? ==>
      var k := EligibleKey(r).value;
      && (o.latest[k] == Entry(r, FetchedData(r).value) || (k in latest && o.latest[k] == latest[k]))
      && r.publishedAt <= o.latest[k].release.publishedAt
      && (k in latest ==> latest[k].release.publishedAt <= o.latest[k].release.publishedAt)
      && (k in latest && r.publishedAt <= latest[k].release.publishedAt ==> o.latest[k] == latest[k])
  {
    match EligibleKey(r)
    case None => Done(latest)
    case Some(key) =>
      match FetchedData(r)
      case None => Aborted(r.tag)
      case Some(data) =>
        if key !in latest || r.publishedAt > latest[key].release.publishedAt
        then Done(latest[key := Entry(r, data)])
        else Done(latest)
  }

  /** The pass over a whole release list, as a left fold of `Step`. */
  function Select(rs: seq<Release>): Outcome
    decreases |rs|
  {
    if rs == [] then Done(map[])
    else
      match Select(rs[..|rs| - 1])
      case Aborted(tag) => Aborted(tag)
      case Done(latest) => Step(latest, rs[|rs| - 1])
  }

  /** Once a fetch has raised, no later release changes the outcome. */
  lemma {:induction false} AbortPersists(rs: seq<Release>, n: nat)
    requires n <= |rs|
    requires Select(rs[..n]).Aborted?
    ensures Select(rs) == Select(rs[..n])
    decreases |rs| - n
  {
    if n < |rs| {
      assert rs[..n + 1][..n] == rs[..n];
      AbortPersists(rs, n + 1);
    } else {
      assert rs[..n] == rs;
    }
  }

  /** The generator's loop, with its early `continue`s. */
  method SelectLatest(releases: seq<Release>) returns (outcome: Outcome)
    ensures outcome == Select(releases)
  {
    var latest: Latest := map[];
    for i := 0 to |releases|
      invariant Select(releases[..i]) == Done(latest)
    {
      assert releases[..i + 1][..i] == releases[..i];
      var release := releases[i];
      if release.draft {
        assert Step(latest, release) == Done(latest);
        continue;
      }
      var classified := ClassifyTag(release.tag);
      if classified.None? {
        assert Step(latest, release) == Done(latest);
        continue;
      }
      var product := classified.value.0;
      var channel := ChannelFor(release.prerelease);
      var asset := FindUpdateAsset(release.assets);
      if asset.None? {
        assert Step(latest, release) == Done(latest);
        continue;
      }
      var data := release.assets[asset.value].download;
      var key := Key(product, channel);
      assert EligibleKey(release) == Some(key) && FetchedData(release) == data;
      if data.None? {
        AbortPersists(releases, i + 1);
        return Aborted(release.tag);
      }
      if key !in latest || release.publishedAt > latest[key].release.publishedAt {
        latest := latest[key := Entry(release, data.value)];
      }
    }
    assert releases[..|releases|] == releases;
    return Done(latest);
  }
}
