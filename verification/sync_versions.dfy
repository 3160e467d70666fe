/**
 The synchroniser: `read_version`, `update_version`, `update_compat_version` and
 the decision `main` takes once both project files have been read.

 The two writers differ only in the key of their pattern (`version` and
 `CodingTheoryUtils`); both rewrite every field of their key. `Sync` is `main`
 with the file system replaced by its inputs (whether each file exists, and
 the text of each) and its outputs (the status it reports, its exit code and
 the text it leaves in the docs project file).
 */
module SyncVersions {
  import opened Pattern
  import opened Fields
  import opened FieldOrder

  /** The key of the version field, `version\s*=\s*"..."`. */
  const VersionKey: string := "version"

  /** The key of the compatibility bound on the package itself. */
  const CompatKey: string := "CodingTheoryUtils"

  /** The matcher cannot confuse the two keys. */
  lemma KeyFacts()
    ensures Distinguishable(VersionKey, CompatKey)
  {
  }

  /** No field of `key` starts anywhere in `s`. */
  ghost predicate NoField(s: string, key: string) {
    forall j :: 0 <= j <= |s| ==> MatchAt(s, key, j).None?
  }

  lemma NoFieldNoFind(s: string, key: string)
    requires NoField(s, key)
    ensures Find(s, key).None?
  {
  }

  /** `read_version`: the value of the leftmost version field, which is never
      empty and never holds a quote; None exactly when no version field starts
      anywhere in the text. */
  function ReadVersion(content: string): (r: Option<string>)
    ensures r.Some? ==> |r.value| > 0 && '"' !in r.value
    ensures r.None? <==> NoField(content, VersionKey)
  {
    Extract(content, VersionKey)
  }

  /** `update_version`: every version field gets the value `v`; the layout
      around the values (keys, spacing, `=`, quotes and all other text) is
      copied. A text without a version field comes back unchanged. */
  function UpdateVersion(content: string, v: string): (r: string)
    requires '\\' !in v
    ensures r == Flatten(Fill(Layout(content, VersionKey), v))
    ensures NoField(content, VersionKey) ==> r == content
  {
    SubstituteKeepsLayout(content, VersionKey, v);
    Substitute(content, VersionKey, v)
  }

  /** `update_compat_version`: the same rewrite for every `CodingTheoryUtils`
      field. */
  function UpdateCompatVersion(content: string, v: string): (r: string)
    requires '\\' !in v
    ensures r == Flatten(Fill(Layout(content, CompatKey), v))
    ensures NoField(content, CompatKey) ==> r == content
  {
    SubstituteKeepsLayout(content, CompatKey, v);
    Substitute(content, CompatKey, v)
  }

  /** After `update_version` with a usable version, the version fields are
      the old ones, in the same order, each holding `v`. */
  lemma UpdateVersionFields(content: string, v: string)
    requires '\\' !in v && |v| > 0 && '"' !in v
    ensures Layout(UpdateVersion(content, v), VersionKey) == Fill(Layout(content, VersionKey), v)
  {
    KeyFacts();
    LayoutOfSubstitute(content, VersionKey, v);
  }

  /** After `update_compat_version` with a usable version, the compat fields
      are the old ones, in the same order, each holding `v`. */
  lemma UpdateCompatVersionFields(content: string, v: string)
    requires '\\' !in v && |v| > 0 && '"' !in v
    ensures Layout(UpdateCompatVersion(content, v), CompatKey) == Fill(Layout(content, CompatKey), v)
  {
    KeyFacts();
    LayoutOfSubstitute(content, CompatKey, v);
  }

  /** Read after write: a text with a version field reads back the version
      just written. */
  lemma ReadVersionAfterUpdate(content: string, v: string)
    requires '\\' !in v && |v| > 0 && '"' !in v
    requires ReadVersion(content).Some?
    ensures ReadVersion(UpdateVersion(content, v)) == Some(v)
  {
    KeyFacts();
    ReadAfterWrite(content, VersionKey, v);
  }

  /** Writing the same version twice gives the text writing it once gives. */
  lemma UpdateVersionIdempotent(content: string, v: string)
    requires '\\' !in v && |v| > 0 && '"' !in v
    ensures UpdateVersion(UpdateVersion(content, v), v) == UpdateVersion(content, v)
  {
    KeyFacts();
    SubstituteIdempotent(content, VersionKey, v);
  }

  /** Writing the same compat bound twice gives the text writing it once gives. */
  lemma UpdateCompatVersionIdempotent(content: string, v: string)
    requires '\\' !in v && |v| > 0 && '"' !in v
    ensures UpdateCompatVersion(UpdateCompatVersion(content, v), v) == UpdateCompatVersion(content, v)
  {
    KeyFacts();
    SubstituteIdempotent(content, CompatKey, v);
  }

  /** What `main` reports. */
  datatype Status =
    | RootFileMissing
    | DocsFileMissing
    | RootVersionMissing
    | AlreadySynchronized(version: string)
    | Updated(version: string)

  /** One run of `main`: what it reports, its exit code, and the text it leaves
      in the docs project file when it writes that file (None: not written).
      The root project file is never written, so it has no field here. */
  datatype Outcome = Outcome(status: Status, exitCode: int, newDocs: Option<string>)

  /** `main` once both files have been looked up and read: `rootExists` and
      `docsExists` are what `Path.exists` answers, `root` and `docs` the texts
      of the two files (ignored when the file is missing). */
  function Sync(rootExists: bool, docsExists: bool, root: string, docs: string): (o: Outcome)
    requires ReadVersion(root).Some? ==> '\\' !in ReadVersion(root).value
    ensures o.exitCode == 0 || o.exitCode == 1
    ensures o.exitCode == 1 <==> !rootExists || !docsExists || ReadVersion(root).None?
    ensures o.exitCode == 1 ==> o.newDocs.None?
    ensures !rootExists ==> o.status == RootFileMissing
    ensures rootExists && !docsExists ==> o.status == DocsFileMissing
    ensures rootExists && docsExists && ReadVersion(root).None? ==> o.status == RootVersionMissing
    ensures o.status.AlreadySynchronized? <==> o.exitCode == 0 && ReadVersion(root) == ReadVersion(docs)
    ensures o.status.AlreadySynchronized? ==> Some(o.status.version) == ReadVersion(root) && o.newDocs.None?
    ensures o.status.Updated? <==> o.exitCode == 0 && ReadVersion(root) != ReadVersion(docs)
    ensures o.status.Updated? ==>
              && Some(o.status.version) == ReadVersion(root)
              && o.newDocs == Some(UpdateCompatVersion(UpdateVersion(docs, o.status.version), o.status.version))
  {
    if !rootExists then Outcome(RootFileMissing, 1, None)
    else if !docsExists then Outcome(DocsFileMissing, 1, None)
    else
      var rootVersion := ReadVersion(root);
      var docsVersion := ReadVersion(docs);
      // `not root_version`: None, or the empty string, which a match never yields
      if rootVersion.None? || rootVersion.value == "" then Outcome(RootVersionMissing, 1, None)
      else if rootVersion != docsVersion then
        var rv := rootVersion.value;
        Outcome(Updated(rv), 0, Some(UpdateCompatVersion(UpdateVersion(docs, rv), rv)))
      else Outcome(AlreadySynchronized(rootVersion.value), 0, None)
  }

  /** A docs text in the shape the synchroniser expects: it has a version field,
      and its first compat field, if any, opens after the first version field
      closes. */
  ghost predicate WellFormedDocs(docs: string) {
    && Find(docs, VersionKey).Some?
    && (Find(docs, CompatKey).None? ||
        Find(docs, VersionKey).value.valueEnd < Find(docs, CompatKey).value.valueStart)
  }

  /** Syncing a well-formed docs text to a usable version makes the docs text
      read back that version: the compat rewrite cannot reach the first version
      field, which the version rewrite has just set. */
  lemma ReadVersionAfterSync(docs: string, v: string)
    requires '\\' !in v && |v| > 0 && '"' !in v
    requires WellFormedDocs(docs)
    ensures ReadVersion(UpdateCompatVersion(UpdateVersion(docs, v), v)) == Some(v)
  {
    KeyFacts();
    FirstFieldSurvives(docs, VersionKey, CompatKey, v, Find(docs, VersionKey).value);
  }

  /** After syncing to a usable version, every compat field holds it. */
  lemma CompatFieldsAfterSync(docs: string, v: string)
    requires '\\' !in v && |v| > 0 && '"' !in v
    ensures var compat := Layout(UpdateCompatVersion(UpdateVersion(docs, v), v), CompatKey);
            forall k :: 0 <= k < |compat| && compat[k].Field? ==> compat[k].value == v
  {
    UpdateCompatVersionFields(UpdateVersion(docs, v), v);
  }

  /** A docs text that reads back the root version is left alone. */
  lemma SyncWhenEqual(root: string, docs: string)
    requires ReadVersion(root).Some? && '\\' !in ReadVersion(root).value
    requires ReadVersion(docs) == ReadVersion(root)
    ensures Sync(true, true, root, docs) == Outcome(AlreadySynchronized(ReadVersion(root).value), 0, None)
  {
  }

  /** After a run that updates a well-formed docs text, the docs text reads
      back the root version, every compat field holds it, and a second run on
      the same root text reports "already synchronized" and writes nothing. */
  lemma SyncReachesFixedPoint(root: string, docs: string)
    requires ReadVersion(root).Some? && '\\' !in ReadVersion(root).value
    requires WellFormedDocs(docs)
    ensures var o := Sync(true, true, root, docs);
            o.status.Updated? ==>
              && o.newDocs.Some?
              && ReadVersion(o.newDocs.value) == ReadVersion(root)
              && (var compat := Layout(o.newDocs.value, CompatKey);
                  forall k :: 0 <= k < |compat| && compat[k].Field? ==> compat[k].value == o.status.version)
              && Sync(true, true, root, o.newDocs.value) == Outcome(AlreadySynchronized(o.status.version), 0, None)
  {
    var o := Sync(true, true, root, docs);
    if o.status.Updated? {
      var rv := o.status.version;
      var n := UpdateCompatVersion(UpdateVersion(docs, rv), rv);
      assert o.newDocs == Some(n);
      ReadVersionAfterSync(docs, rv);
      CompatFieldsAfterSync(docs, rv);
      SyncWhenEqual(root, n);
    }
  }

  /** A docs text with neither a version field nor a compat field is reported
      as updated on every run, and is written back unchanged. */
  lemma SyncWithoutFields(root: string, docs: string)
    requires ReadVersion(root).Some? && '\\' !in ReadVersion(root).value
    requires NoField(docs, VersionKey) && NoField(docs, CompatKey)
    ensures Sync(true, true, root, docs) == Outcome(Updated(ReadVersion(root).value), 0, Some(docs))
  {
  }

  /** The key is not anchored: `version` at the end of a longer identifier is
      read as a version field. */
  lemma ReadVersionUnanchored(s: string)
    requires s == "julia_version = \"1.6\""
    ensures ReadVersion(s) == Some("1.6")
  {
    UnanchoredMatch(s);
    ExtractOfFind(s, VersionKey, Span(6, 14, 17, 20));
    assert s[17..20] == "1.6";
  }

  lemma UnanchoredMatch(s: string)
    requires s == "julia_version = \"1.6\""
    ensures Find(s, VersionKey) == Some(Span(6, 14, 17, 20))
  {
    KeyFacts();
    NoMatchWithoutFirstChar(s, VersionKey, 6);
    assert s[6..13] == VersionKey;
    LeftmostMatch(s, VersionKey, Span(6, 14, 17, 20));
  }

  /** Without the compat field after the version field, one run need not
      reach a fixed point: a compat value that swallows the version field is
      rewritten away with it, and the next run updates again. */
  lemma SyncWithoutFixedPoint(root: string, docs: string)
    requires root == "version = \"2\""
    requires docs == "CodingTheoryUtils = \"version = \"1\""
    ensures var o := Sync(true, true, root, docs);
            && o.status == Updated("2")
            && o.newDocs.Some?
            && ReadVersion(o.newDocs.value).None?
            && Sync(true, true, root, o.newDocs.value).status == Updated("2")
  {
    RootReadsTwo(root);
    DocsReadsOne(docs);
    var u := UpdateVersion(docs, "2");
    UpdateOfDocs(docs, u);
    var n := UpdateCompatVersion(u, "2");
    SyncUpdatesTo(root, docs, "2");
    CompatUpdateDropsVersion(u);
    NoFindWithoutFirstChar(n, VersionKey);
    SyncWithoutDocsVersion(root, n);
  }

  /** A run on differing versions rewrites the docs text with the root's. */
  lemma SyncUpdatesTo(root: string, docs: string, v: string)
    requires ReadVersion(root) == Some(v) && '\\' !in v
    requires ReadVersion(docs) != Some(v)
    ensures Sync(true, true, root, docs) == Outcome(Updated(v), 0, Some(UpdateCompatVersion(UpdateVersion(docs, v), v)))
  {
  }

  /** A docs text without a version field never reads as synchronized: every
      run rewrites it. */
  lemma SyncWithoutDocsVersion(root: string, docs: string)
    requires ReadVersion(root).Some? && '\\' !in ReadVersion(root).value
    requires ReadVersion(docs).None?
    ensures Sync(true, true, root, docs).status == Updated(ReadVersion(root).value)
  {
  }

  // The steps of `SyncWithoutFixedPoint` on its two texts.

  lemma RootReadsTwo(root: string)
    requires root == "version = \"2\""
    ensures ReadVersion(root) == Some("2")
  {
    assert root[0..7] == VersionKey;
    ExtractComplete(root, VersionKey, Span(0, 8, 11, 12));
    assert root[11..12] == "2";
  }

  lemma DocsReadsOne(docs: string)
    requires docs == "CodingTheoryUtils = \"version = \"1\""
    ensures Find(docs, VersionKey) == Some(Span(21, 29, 32, 33))
    ensures ReadVersion(docs) == Some("1")
  {
    KeyFacts();
    NoMatchWithoutFirstChar(docs, VersionKey, 21);
    assert docs[21..28] == VersionKey;
    LeftmostMatch(docs, VersionKey, Span(21, 29, 32, 33));
    ExtractOfFind(docs, VersionKey, Span(21, 29, 32, 33));
    assert docs[32..33] == "1";
  }

  lemma UpdateOfDocs(docs: string, u: string)
    requires docs == "CodingTheoryUtils = \"version = \"1\""
    requires u == UpdateVersion(docs, "2")
    ensures u == "CodingTheoryUtils = \"version = \"2\""
  {
    DocsReadsOne(docs);
    SubstituteStep(docs, VersionKey, "2", Span(21, 29, 32, 33));
    assert docs[34..] == "";
    assert Find("", VersionKey).None?;
  }

  /** The compat field's value runs from its quote to the quote after
      `version = `, so the rewrite replaces the version key along with it. */
  lemma CompatUpdateOfDocs(u: string)
    requires u == "CodingTheoryUtils = \"version = \"2\""
    ensures UpdateCompatVersion(u, "2") == u[..21] + "2" + "\"" + u[32..]
  {
    KeyFacts();
    CompatFieldOfUpdatedDocs(u);
    SubstituteStep(u, CompatKey, "2", Span(0, 18, 21, 31));
    var rest := u[32..];
    assert rest == "2\"";
    NoFindWithoutFirstChar(rest, CompatKey);
  }

  lemma CompatUpdateDropsVersion(u: string)
    requires u == "CodingTheoryUtils = \"version = \"2\""
    ensures 'v' !in UpdateCompatVersion(u, "2")
  {
    CompatUpdateOfDocs(u);
    NoVersionLetter(u[..21]);
    NoVersionLetter(u[32..]);
  }

  lemma NoVersionLetter(s: string)
    requires s == "CodingTheoryUtils = \"version = \"2\""[..21] || s == "CodingTheoryUtils = \"version = \"2\""[32..]
    ensures 'v' !in s
  {
  }

  lemma CompatFieldOfUpdatedDocs(u: string)
    requires u == "CodingTheoryUtils = \"version = \"2\""
    ensures Find(u, CompatKey) == Some(Span(0, 18, 21, 31))
  {
    assert u[0..17] == CompatKey;
    assert forall k :: 21 <= k < 31 ==> u[k] != '"';
    LeftmostMatch(u, CompatKey, Span(0, 18, 21, 31));
  }

  /** The compat pattern is not confined to the `[compat]` section: in a docs
      text whose `[deps]` entry for the package comes first, that entry (the
      package's UUID, here `abc`) is the first field rewritten. */
  lemma DepsEntryOverwritten(docs: string)
    requires docs == "[deps]\n" + "CodingTheoryUtils = \"abc\"" + "\n[compat]\nCodingTheoryUtils = \"1\""
    ensures Find(docs, CompatKey) == Some(Span(7, 25, 28, 31))
    ensures var n := UpdateCompatVersion(docs, "2");
            n[..28] == docs[..28] && n[28..29] == "2" && Extract(n, CompatKey) == Some("2")
  {
    var sp := Span(7, 25, 28, 31);
    DepsEntryFound(docs);
    KeyFacts();
    FirstValueAfterSubstitute(docs, CompatKey, "2", sp);
    var n := Substitute(docs, CompatKey, "2");
    ExtractOfFind(n, CompatKey, sp.(valueEnd := 29));
  }

  lemma DepsEntryFound(docs: string)
    requires docs == "[deps]\n" + "CodingTheoryUtils = \"abc\"" + "\n[compat]\nCodingTheoryUtils = \"1\""
    ensures Find(docs, CompatKey) == Some(Span(7, 25, 28, 31))
  {
    NoCompatLetter(docs[..7]);
    NoMatchWithoutFirstChar(docs, CompatKey, 7);
    assert docs[7..24] == CompatKey;
    assert forall k :: 28 <= k < 31 ==> docs[k] != '"';
    LeftmostMatch(docs, CompatKey, Span(7, 25, 28, 31));
  }

  lemma NoCompatLetter(s: string)
    requires s == "[deps]\n"
    ensures 'C' !in s
  {
  }
}
