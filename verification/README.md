# Version synchroniser of CodingTheoryUtils.jl, in Dafny

`scripts/sync_versions.py` keeps the docs project file (`docs/Project.toml`)
in step with the package's root `Project.toml`. It reads the root version from
the first `version = "..."` field. If the docs file reads back a different
version, it rewrites every `version = "..."` field of the docs file and then
every `CodingTheoryUtils = "..."` field (the compat bound on the package).
This project models the text logic of that script and proves its properties:

- `pattern.dfy` (module `Pattern`): a matcher for the one regex shape the
  script uses, `KEY\s*=\s*"[^"]+"`. `Decomposes` is the declarative reading of
  a match. `MatchAt` is the computable matcher, proved equal to it in both
  directions. `Find` is the leftmost match, as `re.search` reports it.
- `fields.dfy` (module `Fields`): `Extract` is `read_version`'s group 1.
  `Substitute` is `re.sub` with the replacement `\g<1>v\g<2>`. `Layout` cuts a
  text into kept text and field values. That cut is how preservation,
  read-after-write and idempotence are stated.
- `field_order.dfy` (module `FieldOrder`): how the compat rewrite that follows
  the version rewrite interacts with it. The two keys end in different
  characters, so their fields never share a value.
- `sync_versions.dfy` (module `SyncVersions`): `read_version`,
  `update_version` and `update_compat_version`. `Sync` is the decision `main`
  takes; it returns the status reported, the exit code, and the new docs text
  when the docs file is written.

`Sync` has no output for the root file. The root file is never written, by
construction.

The comments of `update_compat_version` (lines 33 and 37) speak of the
`[compat]` section, but its pattern (line 39) is not restricted to any
section, and `re.sub` is called without a count. Both writers therefore
rewrite every non-overlapping field of their key, anywhere in the text, left
to right. The model follows the code: `Substitute` does exactly that.

Two observations follow from the code as written:

- The `[deps]` entry `CodingTheoryUtils = "<uuid>"` matches the compat
  pattern as well. `update_compat_version` therefore also overwrites the
  package's UUID in the docs file whenever that entry is present: by
  `UpdateCompatVersionFields` and `CompatFieldsAfterSync`, every
  `CodingTheoryUtils` field of the text holds the new version afterwards,
  whatever section it sits in, and `DepsEntryOverwritten` shows it on a
  docs text with both a `[deps]` and a `[compat]` entry.
- One run need not reach a fixed point. If a compat value swallows the
  version field (`CodingTheoryUtils = "version = "1"`), the compat rewrite
  removes the version key. The next run then finds no docs version and
  rewrites again (`SyncWithoutFixedPoint`). A docs file with no version field
  at all is reported as updated on every run (`SyncWithoutDocsVersion`).
  `SyncReachesFixedPoint` proves the fixed point for docs texts whose first
  compat field opens after their first version field closes. That condition is
  sufficient, not necessary: a compat field placed before the version field
  but not swallowing it also settles after one run.

## Model

| member | source | states |
|---|---|---|
| Pattern.IsSpace | scripts/sync_versions.py:12 | `\s` in a str pattern: exactly the characters for which `str.isspace()` holds; its contract states that `=`, `"` and the keys' last characters are not among them |
| Pattern.MatchAt | scripts/sync_versions.py:12 | one attempt of the pattern at a position: a reported match starts there and its value lies strictly inside the text; `MatchAtSound` and `MatchAtComplete` show it is exactly a match of the pattern |
| Pattern.MatchAtSound | scripts/sync_versions.py:12 | whatever the matcher reports at a position is a match of `KEY\s*=\s*"[^"]+"`: the key, spaces, `=`, spaces, a quote, a non-empty quote-free value, a quote |
| Pattern.MatchAtComplete | scripts/sync_versions.py:12 | every match of the pattern is found at its start position, with exactly its span: the greedy `\s*` and `[^"]+` leave no other way to match |
| Pattern.Find | scripts/sync_versions.py:12 | `re.search`: a reported match starts at the returned position and no match starts further left; None only when no position of the text starts a match |
| Pattern.LeftmostMatch | scripts/sync_versions.py:12 | a match with no match to its left is the one the search returns |
| Pattern.DistinctKeysDistinctValues | scripts/sync_versions.py:72-73 | a `version` field and a `CodingTheoryUtils` field never share an opening quote |
| Fields.Extract | scripts/sync_versions.py:12-15 | the captured group is non-empty and quote-free; None only when no position starts a field |
| Fields.ExtractSound | scripts/sync_versions.py:12-14 | the returned value is the value of a field with no field to its left |
| Fields.ExtractComplete | scripts/sync_versions.py:12-14 | the value of the leftmost field is what is returned |
| Fields.Substitute | scripts/sync_versions.py:23-27 | `re.sub` with replacement `\g<1>v\g<2>`; its own contract gives only that a text without a match comes back unchanged; what it does to a text with matches is stated by `SubstituteKeepsLayout` and `LayoutOfSubstitute` |
| Fields.LayoutFlatten | scripts/sync_versions.py:23-27 | cutting a text into kept text and field values loses nothing: joining the pieces gives the text back |
| Fields.SubstituteKeepsLayout | scripts/sync_versions.py:23-27 | `re.sub` copies every kept piece of the layout and puts the new value into every field, so nothing outside the value spans changes |
| Fields.LayoutOfSubstitute | scripts/sync_versions.py:23-27 | after the rewrite the same fields are found in the same order, each holding the new value; no field is lost or created |
| Fields.SubstituteIdempotent | scripts/sync_versions.py:23-27 | rewriting twice with the same value gives the text that rewriting once gives |
| Fields.ReadAfterWrite | scripts/sync_versions.py:23-27 | a text that has a field reads back the value just written |
| Fields.FirstValueAfterSubstitute | scripts/sync_versions.py:23-27 | after the rewrite the first field is at the same place, with the new value, and the text before it is unchanged |
| FieldOrder.OtherFieldStaysAfter | scripts/sync_versions.py:72-73 | rewriting one key's fields keeps the other key's first field after the first rewritten field |
| FieldOrder.FirstFieldSurvives | scripts/sync_versions.py:72-73 | rewriting `key1` and then `key2` to `v` reads back `v` for `key1`, when the first `key2` field opened after the first `key1` field |
| SyncVersions.ReadVersion | scripts/sync_versions.py:7-15 | `read_version`: the value read is non-empty and quote-free; None exactly when no version field starts anywhere |
| SyncVersions.ReadVersionUnanchored | scripts/sync_versions.py:12 | the key is unanchored: `julia_version = "1.6"` reads as version `1.6` |
| SyncVersions.UpdateVersion | scripts/sync_versions.py:17-30 | `update_version`: the layout of the text with every version value set to `v`; a text without a version field comes back unchanged |
| SyncVersions.UpdateCompatVersion | scripts/sync_versions.py:32-45 | `update_compat_version`: the same for every `CodingTheoryUtils` field |
| SyncVersions.UpdateVersionFields | scripts/sync_versions.py:23-27 | after `update_version` the version fields are the old ones, in order, each holding `v` |
| SyncVersions.UpdateCompatVersionFields | scripts/sync_versions.py:38-42 | after `update_compat_version` the compat fields are the old ones, in order, each holding `v` |
| SyncVersions.ReadVersionAfterUpdate | scripts/sync_versions.py:23-27 | `read_version` after `update_version(v)` returns `v` when the text had a version field |
| SyncVersions.UpdateVersionIdempotent | scripts/sync_versions.py:23-27 | `update_version` twice with the same version equals once |
| SyncVersions.UpdateCompatVersionIdempotent | scripts/sync_versions.py:38-42 | `update_compat_version` twice with the same version equals once |
| SyncVersions.Sync | scripts/sync_versions.py:54-76 | `main`: a missing root file, then a missing docs file, then a missing root version give exit 1 and no write; equal versions give "already synchronized", exit 0 and no write; otherwise exit 0 and the docs text becomes the compat rewrite of the version rewrite |
| SyncVersions.SyncWhenEqual | scripts/sync_versions.py:70-76 | a docs text that reads back the root version is left alone |
| SyncVersions.SyncUpdatesTo | scripts/sync_versions.py:70-73 | differing versions give status Updated, exit 0 and the rewritten docs text |
| SyncVersions.ReadVersionAfterSync | scripts/sync_versions.py:72-73 | after both rewrites a well-formed docs text reads back the root version |
| SyncVersions.CompatFieldsAfterSync | scripts/sync_versions.py:72-73 | after both rewrites every compat field holds the root version |
| SyncVersions.SyncReachesFixedPoint | scripts/sync_versions.py:62-76 | after a run that updates a well-formed docs text, a second run reports "already synchronized" and writes nothing |
| SyncVersions.SyncWithoutFields | scripts/sync_versions.py:70-73 | a docs text with no version and no compat field is reported updated and written back unchanged |
| SyncVersions.SyncWithoutDocsVersion | scripts/sync_versions.py:62-73 | a docs text with no version field is reported updated on every run |
| SyncVersions.DepsEntryOverwritten | scripts/sync_versions.py:37-42 | the compat pattern is not confined to the `[compat]` section: in `[deps]` then `[compat]`, the `[deps]` entry is the first field found and its value becomes the new version |
| SyncVersions.SyncWithoutFixedPoint | scripts/sync_versions.py:62-76 | root `version = "2"` and docs `CodingTheoryUtils = "version = "1"`: the first run updates, the new docs text has no version field, and the second run updates again |

## Left out

- File I/O: reading and writing the two files (lines 9-10, 19-20, 29-30,
  34-35, 44-45) is replaced by text parameters and the `newDocs` result.
  `Path.exists` is a boolean parameter of `Sync`.
- Path arithmetic from `__file__` (lines 49-51): the model is given the two
  files' existence and contents directly.
- Console messages and `sys.exit` mechanics: the message is modelled as the
  `Status` value and the exit code as a number.
- I/O errors, encodings and concurrent changes to the files are not modelled.
  The file is taken as a sequence of characters.
- Newline translation: `open` in text mode turns `\r\n` and `\r` into `\n`
  on reading and writes `\n` as the platform's line separator. The model works
  on the decoded text, so "unchanged" and the preservation of kept text hold
  for that text, not for the file's bytes; a CRLF docs file is written back
  with LF line ends on POSIX.
- `\s` is Python's `str.isspace` set written out as character ranges. The
  proofs use that `=` and `"` are not spaces, and that the last characters of
  the two keys (`n` and `s`) are not spaces.
- SyncVersions.UpdateVersion: requires a version without a backslash, because
  the escape processing of the replacement template is not modelled.
- SyncVersions.UpdateCompatVersion: requires a version without a backslash,
  for the same reason.
- SyncVersions.Sync: requires the root version, when present, to have no
  backslash, for the same reason.
- SyncVersions.SyncReachesFixedPoint: is proved only for docs texts with a
  version field whose first compat field opens after their first version
  field closes. It can fail otherwise, as `SyncWithoutFixedPoint` and
  `SyncWithoutDocsVersion` show, though not every docs text outside that
  condition fails.
