/**
 * What the release-selection pass guarantees about its result
 * (scripts/generate.py:29-61), proved about `Selection.Select` and so, through
 * `Selection.SelectLatest`'s postcondition, about the loop itself.
 */
module SelectionProperties {
  import opened Wrappers
  import opened Releases
  import opened Selection

  /** Some release of `rs` would be filed under `k`. */
  ghost predicate HasCandidate(rs: seq<Release>, k: Key) {
    exists i :: 0 <= i < |rs| && EligibleKey(rs[i]) == Some(k)
  }

  /**
   * Reference definition of the winner for `k`: `rs[i]` is filed under `k`,
   * nothing filed under `k` is newer, and everything filed under `k` before it
   * is strictly older (the first of several equally new releases wins).
   */
  ghost predicate IsFirstLatest(rs: seq<Release>, k: Key, i: int) {
    && 0 <= i < |rs|
    && EligibleKey(rs[i]) == Some(k)
    && (forall j :: 0 <= j < |rs| && EligibleKey(rs[j]) == Some(k) ==> rs[j].publishedAt <= rs[i].publishedAt)
    && (forall j :: 0 <= j < i && EligibleKey(rs[j]) == Some(k) ==> rs[j].publishedAt < rs[i].publishedAt)
  }

  /** `latest` holds, for key `k`, exactly what the reference definition picks. */
  ghost predicate ChosenFor(rs: seq<Release>, latest: Latest, k: Key) {
    && (k in latest <==> HasCandidate(rs, k))
    && (k in latest ==>
          exists i :: IsFirstLatest(rs, k, i) && latest[k].release == rs[i] && Some(latest[k].data) == FetchedData(rs[i]))
  }

  /** The reference definition names at most one position. */
  lemma FirstLatestUnique(rs: seq<Release>, k: Key, i: int, j: int)
    requires IsFirstLatest(rs, k, i) && IsFirstLatest(rs, k, j)
    ensures i == j
  {
  }

  /** The run stops exactly when some eligible release's metadata fetch raises, at the first one. */
  lemma {:induction false} SelectAbortsAtFirstBroken(rs: seq<Release>)
    ensures Select(rs).Aborted? <==> exists i :: 0 <= i < |rs| && Broken(rs[i])
    ensures Select(rs).Aborted? ==>
      exists i :: 0 <= i < |rs| && Broken(rs[i]) && Select(rs).tag == rs[i].tag &&
        forall j :: 0 <= j < i ==> !Broken(rs[j])
    decreases |rs|
  {
    if rs != [] {
      var init, r := rs[..|rs| - 1], rs[|rs| - 1];
      assert rs == init + [r];
      SelectAbortsAtFirstBroken(init);
      if Select(init).Aborted? {
        assert Select(rs) == Select(init);
        var i :| 0 <= i < |init| && Broken(init[i]) && Select(init).tag == init[i].tag &&
          forall j :: 0 <= j < i ==> !Broken(init[j]);
        assert rs[i] == init[i];
        assert forall j :: 0 <= j < i ==> rs[j] == init[j];
      } else {
        assert Select(rs) == Step(Select(init).latest, r);
        assert forall j :: 0 <= j < |init| ==> !Broken(rs[j]) by {
          forall j | 0 <= j < |init| ensures !Broken(rs[j]) {
            assert rs[j] == init[j];
          }
        }
        if Broken(r) {
          assert Broken(rs[|init|]);
        } else {
          assert forall i :: 0 <= i < |rs| ==> !Broken(rs[i]) by {
            forall i | 0 <= i < |rs| ensures !Broken(rs[i]) {
              if i == |init| {
                assert rs[i] == r;
              }
            }
          }
        }
      }
    }
  }

  /**
   * A draft, a release whose tag has no known product prefix, and a release
   * without an `update.json` asset change nothing, wherever they appear in the list.
   */
  lemma {:induction false} SkippedReleaseChangesNothing(before: seq<Release>, r: Release, after: seq<Release>)
    requires
      || r.draft
      || (forall p: Product :: !(TagPrefix(p) <= r.tag))
      || (forall j :: 0 <= j < |r.assets| ==> r.assets[j].name != UpdateJson)
    ensures Select(before + [r] + after) == Select(before + after)
    decreases |after|
  {
    EligibleKeyMeaning(r);
    if after == [] {
      assert (before + [r] + after)[..|before|] == before;
      assert before + after == before;
    } else {
      var rest, last := after[..|after| - 1], after[|after| - 1];
      assert (before + [r] + after)[..|before + [r] + after| - 1] == before + [r] + rest;
      assert (before + after)[..|before + after| - 1] == before + rest;
      SkippedReleaseChangesNothing(before, r, rest);
    }
  }

  /** Appending a release that does not beat the winner for `k` keeps the winner. */
  lemma FirstLatestKept(init: seq<Release>, r: Release, k: Key, i: int)
    requires IsFirstLatest(init, k, i)
    requires EligibleKey(r) != Some(k) || r.publishedAt <= init[i].publishedAt
    ensures IsFirstLatest(init + [r], k, i)
  {
    var rs := init + [r];
    forall j | 0 <= j < |rs| && EligibleKey(rs[j]) == Some(k)
      ensures rs[j].publishedAt <= rs[i].publishedAt
    {
      if j < |init| {
        assert rs[j] == init[j];
      }
    }
    forall j | 0 <= j < i && EligibleKey(rs[j]) == Some(k)
      ensures rs[j].publishedAt < rs[i].publishedAt
    {
      assert rs[j] == init[j];
    }
  }

  /** Appending a release for `k` strictly newer than all earlier ones makes it the winner. */
  lemma FirstLatestReplaced(init: seq<Release>, r: Release, k: Key)
    requires EligibleKey(r) == Some(k)
    requires forall j :: 0 <= j < |init| && EligibleKey(init[j]) == Some(k) ==> init[j].publishedAt < r.publishedAt
    ensures IsFirstLatest(init + [r], k, |init|)
  {
    var rs := init + [r];
    forall j | 0 <= j < |rs| && EligibleKey(rs[j]) == Some(k)
      ensures rs[j].publishedAt <= rs[|init|].publishedAt
    {
      if j < |init| {
        assert rs[j] == init[j];
      }
    }
    forall j | 0 <= j < |init| && EligibleKey(rs[j]) == Some(k)
      ensures rs[j].publishedAt < rs[|init|].publishedAt
    {
      assert rs[j] == init[j];
    }
  }

  /** Appending a release not filed under `k` leaves "some release is filed under `k`" as it was. */
  lemma CandidateUnchanged(init: seq<Release>, r: Release, k: Key)
    requires EligibleKey(r) != Some(k)
    ensures HasCandidate(init + [r], k) <==> HasCandidate(init, k)
  {
    var rs := init + [r];
    if HasCandidate(rs, k) {
      var j :| 0 <= j < |rs| && EligibleKey(rs[j]) == Some(k);
      assert j < |init| && init[j] == rs[j];
    }
    if HasCandidate(init, k) {
      var j :| 0 <= j < |init| && EligibleKey(init[j]) == Some(k);
      assert rs[j] == init[j];
    }
  }

  /** One more release keeps `latest` in agreement with the reference definition, key by key. */
  lemma ChosenExtends(init: seq<Release>, r: Release, latest: Latest, k: Key)
    requires ChosenFor(init, latest, k)
    requires Step(latest, r).Done?
    ensures ChosenFor(init + [r], Step(latest, r).latest, k)
  {
    var rs := init + [r];
    var next := Step(latest, r).latest;
    if EligibleKey(r) != Some(k) {
      CandidateUnchanged(init, r, k);
      if k in latest {
        var i :| IsFirstLatest(init, k, i) && latest[k].release == init[i] && Some(latest[k].data) == FetchedData(init[i]);
        FirstLatestKept(init, r, k, i);
        assert rs[i] == init[i];
      }
    } else {
      var data := FetchedData(r).value;
      assert HasCandidate(rs, k) by {
        assert rs[|init|] == r;
      }
      if k !in latest {
        assert next[k] == Entry(r, data);
        FirstLatestReplaced(init, r, k);
        assert rs[|init|] == r;
      } else {
        var i :| IsFirstLatest(init, k, i) && latest[k].release == init[i] && Some(latest[k].data) == FetchedData(init[i]);
        if r.publishedAt > latest[k].release.publishedAt {
          assert next[k] == Entry(r, data);
          FirstLatestReplaced(init, r, k);
          assert rs[|init|] == r;
        } else {
          assert next[k] == latest[k];
          FirstLatestKept(init, r, k, i);
          assert rs[i] == init[i];
        }
      }
    }
  }

  /**
   * After the pass, every key with at least one eligible release is present,
   * and holds the newest such release (the earliest-listed one among ties)
   * together with its fetched metadata; no other key is present.
   */
  lemma {:induction false} SelectKeepsFirstLatest(rs: seq<Release>)
    ensures Select(rs).Done? ==> forall k :: ChosenFor(rs, Select(rs).latest, k)
    decreases |rs|
  {
    if rs != [] && Select(rs).Done? {
      var init, r := rs[..|rs| - 1], rs[|rs| - 1];
      assert rs == init + [r];
      SelectKeepsFirstLatest(init);
      var latest := Select(init).latest;
      forall k ensures ChosenFor(rs, Select(rs).latest, k) {
        ChosenExtends(init, r, latest, k);
      }
    }
  }

  /** No eligible release filed under `k` is newer than the one kept for `k`. */
  lemma KeptIsNewest(rs: seq<Release>, i: int)
    requires 0 <= i < |rs| && EligibleKey(rs[i]).Some?
    requires Select(rs).Done?
    ensures EligibleKey(rs[i]).value in Select(rs).latest
    ensures rs[i].publishedAt <= Select(rs).latest[EligibleKey(rs[i]).value].release.publishedAt
  {
    var k := EligibleKey(rs[i]).value;
    SelectKeepsFirstLatest(rs);
    assert ChosenFor(rs, Select(rs).latest, k);
    assert HasCandidate(rs, k);
  }

  /**
   * Among eligible releases for one key with equal publication times, the kept
   * one comes no later in the list than any of them: a tie never replaces.
   */
  lemma TieKeepsEarliest(rs: seq<Release>, i: int)
    requires 0 <= i < |rs| && EligibleKey(rs[i]).Some?
    requires Select(rs).Done?
    requires EligibleKey(rs[i]).value in Select(rs).latest ==>
      rs[i].publishedAt == Select(rs).latest[EligibleKey(rs[i]).value].release.publishedAt
    ensures EligibleKey(rs[i]).value in Select(rs).latest
    ensures exists w :: 0 <= w <= i && Select(rs).latest[EligibleKey(rs[i]).value].release == rs[w]
  {
    KeptIsNewest(rs, i);
    var k := EligibleKey(rs[i]).value;
    SelectKeepsFirstLatest(rs);
    assert ChosenFor(rs, Select(rs).latest, k);
    var w :| IsFirstLatest(rs, k, w) && Select(rs).latest[k].release == rs[w];
  }

  /**
   * Every stored release is a non-draft member of the list whose tag carries its
   * key's product prefix, whose prerelease flag gives its key's channel, and
   * which has an `update.json` asset whose fetched metadata is what is stored.
   */
  lemma {:induction false} StoredReleasesAreEligible(rs: seq<Release>, k: Key)
    requires Select(rs).Done? && k in Select(rs).latest
    ensures Select(rs).latest[k].release in rs
    ensures !Select(rs).latest[k].release.draft
    ensures TagPrefix(k.product) <= Select(rs).latest[k].release.tag
    ensures k.channel == ChannelFor(Select(rs).latest[k].release.prerelease)
    ensures exists j ::
      && 0 <= j < |Select(rs).latest[k].release.assets|
      && Select(rs).latest[k].release.assets[j].name == UpdateJson
      && Select(rs).latest[k].release.assets[j].download == Some(Select(rs).latest[k].data)
  {
    SelectKeepsFirstLatest(rs);
    assert ChosenFor(rs, Select(rs).latest, k);
    var i :| IsFirstLatest(rs, k, i) && Select(rs).latest[k].release == rs[i]
      && Some(Select(rs).latest[k].data) == FetchedData(rs[i]);
    EligibleKeyMeaning(rs[i]);
    var j := FirstUpdateAsset(rs[i].assets).value;
    assert rs[i].assets[j].download == Some(Select(rs).latest[k].data);
  }

  /**
   * `latest` never holds more than the four (product, channel) keys. The first
   * postcondition is a fact about the `Key` type (see `AllKeysComplete`), true of
   * any map keyed by `Key`; the bound on the size follows from it.
   */
  lemma SelectHasAtMostFourKeys(rs: seq<Release>)
    ensures Select(rs).Done? ==> Select(rs).latest.Keys <= AllKeys
    ensures Select(rs).Done? ==> |Select(rs).latest| <= 4
  {
    if Select(rs).Done? {
      var keys := Select(rs).latest.Keys;
      forall k | k in keys ensures k in AllKeys {
        AllKeysComplete(k);
      }
      AllKeysCount();
      SubsetCardinality(keys, AllKeys);
    }
  }

  lemma {:induction false} SubsetCardinality<T>(a: set<T>, b: set<T>)
    requires a <= b
    ensures |a| <= |b|
    decreases |b|
  {
    if a != {} {
      var x :| x in a;
      SubsetCardinality(a - {x}, b - {x});
    }
  }
}
