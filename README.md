# Release selection of the warped-pinball update generator

`scripts/generate.py` lists the releases of a firmware repository and, for
every (product, channel) pair, writes the parsed `update.json` metadata of
the newest release to `<out_dir>/<product>/<channel>.json`. Its `main`
walks the release list once: drafts are skipped, the tag prefix `sys11-` or
`wpc-` decides the product (any other tag is skipped), the prerelease flag
decides the channel (`beta` or `main`), a release without an asset named
exactly `update.json` is skipped, the metadata is fetched and parsed, and
the dictionary `latest` takes the release when its key is new or the
release is strictly newer than the one stored. The test `not prev` is true
only when the key is absent, because a stored (release, data) pair is never
falsy; the model therefore tests key membership.

This project models that pass in Dafny and proves what it computes.

- `wrappers.dfy` — `Option`.
- `releases.dfy` (module `Releases`) — releases, assets, products, channels
  and keys; the tag classifier, the channel choice, the search for the
  first `update.json` asset and the resulting eligibility of a release.
- `selection.dfy` (module `Selection`) — `Step`, the effect of one release
  on `latest`; `Select`, the pass as a fold of `Step`; and `SelectLatest`,
  the loop itself, with its `continue`s, proved equal to `Select`.
- `selection_properties.dfy` (module `SelectionProperties`) — what the pass
  guarantees. The winner for a key is characterised independently by
  `IsFirstLatest`: it is filed under that key, no release filed under the
  key is newer, and every earlier one is strictly older. `latest` holds
  exactly the keys that have a candidate, each with that winner.
- `output.dfy` (module `Output`) — the output paths, the write loop and the
  whole run.

A metadata fetch that raises (an HTTP error page that is not JSON, a
network failure) is an uncaught exception in the script. It ends the run
before any file is written. The model keeps this path: an asset's
`download` is `None` when fetching and parsing it raises, and the pass then
yields `Aborted(tag)`. The fetch happens before the date comparison, so even
a release that would not have won aborts the run.

The wider design of the project also has these features: three channels
(production/beta/dev) taken from version-string suffixes, versions read from
the release body, deduplication by content hash, per-product history
views, and build and download-count indices. None of this is in
`scripts/generate.py`, which is what this model follows. Here the channel
comes from the prerelease flag and can only be `beta` or `main`.

## Model

| member | source | states |
|---|---|---|
| `Releases.ClassifyTag` | scripts/generate.py:33-41 | a recognised tag is its product's prefix followed by the returned version; a tag is rejected exactly when it starts with neither `sys11-` nor `wpc-` |
| `Releases.ClassifyTagRoundTrip` | scripts/generate.py:34-39 | classifying `sys11-`+v or `wpc-`+v gives back exactly that product and v |
| `Releases.ChannelFor` | scripts/generate.py:43 | the channel is `Beta` exactly when the release is a prerelease, otherwise `Main` |
| `Releases.FirstUpdateAsset` | scripts/generate.py:46-47 | the index found holds an asset named exactly `update.json` and no earlier asset has that name; none is found only when no asset has it |
| `Releases.FindUpdateAsset` | scripts/generate.py:46 | the search through the assets returns the first `update.json`, as `FirstUpdateAsset` defines it |
| `Releases.EligibleKeyMeaning` | scripts/generate.py:29-49 | a release is filed iff it is not a draft, its tag has a known prefix and it has an `update.json` asset; it is then filed under its prefix's product and the channel of its prerelease flag |
| `Selection.Step` | scripts/generate.py:30-61 | one release aborts the run iff its metadata fetch raises; a skipped release leaves `latest` as it was; otherwise only the release's own key is added or replaced, every other entry is untouched, and the own key ends up holding either the release or the old entry, whichever is newer, keeping the old entry unless the release is strictly newer |
| `Selection.AbortPersists` | scripts/generate.py:52-56 | once a fetch has raised, the rest of the list does not matter |
| `Selection.SelectLatest` | scripts/generate.py:27-61 | the loop, with its skips and early abort, computes the fold `Select` of the release list |
| `SelectionProperties.FirstLatestUnique` | scripts/generate.py:58-61 | at most one position of the list is the winner for a key |
| `SelectionProperties.SelectAbortsAtFirstBroken` | scripts/generate.py:52-56 | the run aborts iff some eligible release's fetch raises, and it reports the first such release |
| `SelectionProperties.SkippedReleaseChangesNothing` | scripts/generate.py:30-49 | inserting a draft, a release with an unknown tag prefix, or one without `update.json` anywhere in the list changes nothing |
| `SelectionProperties.SelectKeepsFirstLatest` | scripts/generate.py:58-61 | after the pass, `latest` holds a key iff some release is filed under it, and holds for it the newest such release (the earliest-listed among equally new ones) with its fetched metadata |
| `SelectionProperties.KeptIsNewest` | scripts/generate.py:58-61 | every eligible release's key is present, and no eligible release under that key is newer than the one kept |
| `SelectionProperties.TieKeepsEarliest` | scripts/generate.py:60 | when an eligible release is exactly as new as the kept one, the kept one comes no later in the list: a tie never replaces |
| `SelectionProperties.StoredReleasesAreEligible` | scripts/generate.py:30-61 | every stored release comes from the list, is not a draft, carries its key's product prefix and channel, and has an `update.json` asset whose metadata is the stored data |
| `SelectionProperties.SelectHasAtMostFourKeys` | scripts/generate.py:34-43 | every key lies in {sys11, wpc} × {beta, main}, so `latest` has at most four entries |
| `Output.OutputPathInjective` | scripts/generate.py:64-67 | distinct keys are written to distinct `<product>/<channel>.json` files |
| `Output.OutputPathsCount` | scripts/generate.py:64-69 | the set of written paths has as many elements as there are keys |
| `Output.WriteOutputs` | scripts/generate.py:64-69 | the write loop produces one file per key, holding that key's metadata, and no other file, whatever order the keys are visited in |
| `Output.Generate` | scripts/generate.py:27-69 | no file is written iff the pass aborts; otherwise the written files are exactly those of the selected `latest` |

## Left out

- Argument parsing and the `GITHUB_TOKEN` check with its exit status (scripts/generate.py:10-21): process plumbing.
- The GitHub client calls (scripts/generate.py:23-24, 29, 46): the release list is an input sequence, and each release's assets are a sequence of (name, download) pairs.
- The HTTP request and JSON parsing (scripts/generate.py:52-56): an asset's `download` is the value `resp.json()` returns, or `None` when the request or the parse raises. The kind of failure and the authorization header are not modelled.
- JSON serialisation, `os.makedirs`, `os.path.join` and the output directory prefix (scripts/generate.py:64-69): the written files are a map from the path relative to the output directory to the metadata. Indentation, file-system failures and the order in which files are written are not modelled.
- The diagnostics printed at scripts/generate.py:48 and 71-72: output only. The order of the keys in the summary line is not modelled.
- `published_at` is a datetime in the source; it is an integer here, because only its ordering is used (scripts/generate.py:60).
- `version` (scripts/generate.py:36, 39) is computed but never used by the source. `ClassifyTag` returns it and nothing else uses it.
- `calculate_json_hash` and `fetch_update_json`, which tests/test_generate.py calls, are not defined in scripts/generate.py. They are not part of this model.
