/**
 * The generator's output stage (scripts/generate.py:63-72): one JSON file per
 * key of `latest`, at `<product>/<channel>.json` under the output directory,
 * holding the metadata stored for that key.
 */
module Output {
  import opened Wrappers
  import opened Releases
  import opened Selection

  /** The file a key is written to, relative to the output directory. */
  function OutputPath(k: Key): string {
    ProductName(k.product) + "/" + ChannelName(k.channel) + ".json"
  }

  /** Distinct keys are written to distinct files, so no key's file overwrites another's. */
  lemma OutputPathInjective(k1: Key, k2: Key)
    ensures OutputPath(k1) == OutputPath(k2) ==> k1 == k2
  {
    if OutputPath(k1) == OutputPath(k2) {
      var p1, p2 := OutputPath(k1), OutputPath(k2);
      assert p1[0] == p2[0];
      assert k1.product == k2.product;
      var n := |ProductName(k1.product)| + 1;
      assert p1[n] == p2[n];
    }
  }

  /** Writing one more key adds exactly its own, not yet written, path. */
  lemma PathsGrow(written: set<Key>, k: Key)
    requires k !in written
    ensures OutputPath(k) !in (set k' | k' in written :: OutputPath(k'))
    ensures (set k' | k' in written + {k} :: OutputPath(k'))
         == (set k' | k' in written :: OutputPath(k')) + {OutputPath(k)}
  {
    forall k' | k' in written ensures OutputPath(k') != OutputPath(k) {
      OutputPathInjective(k', k);
    }
  }

  /** As many files are written as there are keys. */
  lemma {:induction false} OutputPathsCount(keys: set<Key>)
    ensures |set k | k in keys :: OutputPath(k)| == |keys|
    decreases keys
  {
    if keys != {} {
      var k :| k in keys;
      var rest := keys - {k};
      OutputPathsCount(rest);
      PathsGrow(rest, k);
      assert rest + {k} == keys;
    }
  }

  /**
   * The write loop: every key of `latest` gets its file holding that key's
   * metadata, and no other file is written.
   */
  method WriteOutputs(latest: Latest) returns (files: map<string, Json>)
    ensures files.Keys == (set k | k in latest :: OutputPath(k))
    ensures forall k :: k in latest ==> files[OutputPath(k)] == latest[k].data
    ensures |files| == |latest|
  {
    files := map[];
    var pending := latest.Keys;
    ghost var written: set<Key> := {};
    while pending != {}
      invariant written == latest.Keys - pending
      invariant files.Keys == (set k | k in written :: OutputPath(k))
      invariant forall k :: k in written ==> files[OutputPath(k)] == latest[k].data
      decreases pending
    {
      var k :| k in pending;
      PathsGrow(written, k);
      files := files[OutputPath(k) := latest[k].data];
      written := written + {k};
      pending := pending - {k};
    }
    OutputPathsCount(latest.Keys);
    assert |files| == |files.Keys|;
  }

  /**
   * The whole run: select, then write. A raising metadata fetch ends the run
   * before anything is written; otherwise one file per selected key is written.
   */
  method Generate(releases: seq<Release>) returns (written: Option<map<string, Json>>)
    ensures written.None? <==> Select(releases).Aborted?
    ensures written.Some? ==>
      written.value.Keys == (set k | k in Select(releases).latest :: OutputPath(k))
    ensures written.Some? ==> forall k :: k in Select(releases).latest ==>
      written.value[OutputPath(k)] == Select(releases).latest[k].data
  {
    var outcome := SelectLatest(releases);
    match outcome
    case Aborted(_) =>
      written := None;
    case Done(latest) =>
      var files := WriteOutputs(latest);
      written := Some(files);
  }
}
