/** Packaging a firmware preview and checking a package: the two must agree on every byte. */
module Release {
  import opened Wrappers

  type Bytes = seq<int>

  /** File names of a package; anything else a directory may hold is `Foreign`. */
  datatype Name =
    | FirmwareBin | SpiffsBin | FirmwareBom | FrontendBom | Inventory | ManifestJson | Sums | Foreign(text: string)

  const PAYLOAD: set<Name> := {FirmwareBin, SpiffsBin, FirmwareBom, FrontendBom, Inventory}
  const FILES: set<Name> := {FirmwareBin, SpiffsBin, FirmwareBom, FrontendBom, Inventory, ManifestJson, Sums}

  /** `sorted(PAYLOAD)`, by file name. */
  const SORTED_PAYLOAD: seq<Name> := [Inventory, FirmwareBin, FirmwareBom, FrontendBom, SpiffsBin]

  /** `sorted(PAYLOAD | {"manifest.json"})` */
  const SORTED_SUMMED: seq<Name> := [Inventory, FirmwareBin, FirmwareBom, FrontendBom, ManifestJson, SpiffsBin]

  datatype Entry = File(content: Bytes) | Symlink | Other

  type Directory = map<Name, Entry>

  /** `size` is None when the manifest holds something that is no integer. */
  datatype Artifact = Artifact(name: Name, size: Option<int>, sha256: string)

  datatype Manifest = Manifest(schemaVersion: int, repository: string, commit: string, tag: Option<string>,
                               preview: bool, limitations: seq<string>, artifacts: seq<Artifact>)

  /** A line of the checksum file. */
  datatype SumLine = SumLine(digest: string, name: Name) | Unreadable

  /** The functions this model does not look into: SHA-256, JSON and text decoding, and the fixed texts. */
  datatype Tools = Tools(
    digest: Bytes -> string,
    parse: Bytes -> Option<Manifest>,
    lines: Bytes -> Option<seq<SumLine>>,
    isPreviewTag: string -> bool,
    repository: string,
    limitations: seq<string>)

  datatype ReleaseError =
    | UnexpectedFiles | NotRegularFiles | UnreadableManifest | UnsupportedManifest | CommitMismatch | TagMismatch
    | MissingLimitations | WrongArtifacts | SizeMismatch(name: Name) | DigestMismatch(name: Name) | ChecksumMismatch
    | CheckoutMismatch | DirtyCheckout | NotPreviewTag | TagElsewhere | OutputExists | MissingArtifact(name: Name)

  /** `[0-9a-f]{40}` */
  predicate IsFullCommit(s: string) {
    |s| == 40 && forall i :: 0 <= i < |s| ==> '0' <= s[i] <= '9' || 'a' <= s[i] <= 'f'
  }

  lemma FullCommitExactly(s: string)
    ensures IsFullCommit(s) <==> |s| == 40 && forall c :: c in s ==> c in HEX_DIGITS
  {
    forall c ensures c in HEX_DIGITS <==> '0' <= c <= '9' || 'a' <= c <= 'f' {
      HexDigit(c);
    }
    if |s| == 40 && forall c :: c in s ==> c in HEX_DIGITS {
      assert forall i :: 0 <= i < |s| ==> s[i] in s;
    }
  }

  const HEX_DIGITS: string := "0123456789abcdef"

  lemma HexDigit(c: char)
    ensures c in HEX_DIGITS <==> '0' <= c <= '9' || 'a' <= c <= 'f'
  {
    if '0' <= c <= '9' {
      assert HEX_DIGITS[c as int - '0' as int] == c;
    } else if 'a' <= c <= 'f' {
      assert HEX_DIGITS[c as int - 'a' as int + 10] == c;
    }
  }

  // ---- checking ----

  function Content(d: Directory, n: Name): Bytes {
    if n in d && d[n].File? then d[n].content else []
  }

  function Names(artifacts: seq<Artifact>): set<Name> {
    set a | a in artifacts :: a.name
  }

  function ExpectedSums(t: Tools, d: Directory): seq<SumLine> {
    seq(|SORTED_SUMMED|, i requires 0 <= i < |SORTED_SUMMED| =>
      SumLine(t.digest(Content(d, SORTED_SUMMED[i])), SORTED_SUMMED[i]))
  }

  /** The loop over the manifest's entries: the first one that does not fit its file. */
  /** The six lines of the checksum file, by file name. */
  lemma SumsExactly(t: Tools, d: Directory)
    ensures ExpectedSums(t, d) == [
      SumLine(t.digest(Content(d, Inventory)), Inventory),
      SumLine(t.digest(Content(d, FirmwareBin)), FirmwareBin),
      SumLine(t.digest(Content(d, FirmwareBom)), FirmwareBom),
      SumLine(t.digest(Content(d, FrontendBom)), FrontendBom),
      SumLine(t.digest(Content(d, ManifestJson)), ManifestJson),
      SumLine(t.digest(Content(d, SpiffsBin)), SpiffsBin)]
  {
  }

  function FirstMismatch(t: Tools, d: Directory, entries: seq<Artifact>): Option<ReleaseError> {
    if entries == [] then None
    else
      var e := entries[0];
      if e.size.None? || e.size.value <= 0 || |Content(d, e.name)| != e.size.value then Some(SizeMismatch(e.name))
      else if t.digest(Content(d, e.name)) != e.sha256 then Some(DigestMismatch(e.name))
      else FirstMismatch(t, d, entries[1..])
  }

  /** `verify`, check by check. */
  function Verify(t: Tools, d: Directory, commit: string, tag: Option<string>): Result<Manifest, ReleaseError> {
    if d.Keys != FILES then Err(UnexpectedFiles)
    else if exists n :: n in d && !d[n].File? then Err(NotRegularFiles)
    else
      match t.parse(Content(d, ManifestJson))
      case None => Err(UnreadableManifest)
      case Some(m) =>
        if m.schemaVersion != 1 || m.repository != t.repository then Err(UnsupportedManifest)
        else if !IsFullCommit(commit) || m.commit != commit then Err(CommitMismatch)
        else if tag.Some? && m.tag != tag then Err(TagMismatch)
        else if !m.preview || m.limitations != t.limitations then Err(MissingLimitations)
        else if |m.artifacts| != |PAYLOAD| || Names(m.artifacts) != PAYLOAD then Err(WrongArtifacts)
        else
          var mismatch := FirstMismatch(t, d, m.artifacts);
          if mismatch.Some? then Err(mismatch.value)
          else if t.lines(Content(d, Sums)) != Some(ExpectedSums(t, d)) then Err(ChecksumMismatch)
          else Ok(m)
  }

  // ---- what a passing directory is ----

  /** Every payload file has exactly one entry, which gives its size and digest. */
  ghost predicate Describes(t: Tools, d: Directory, entries: seq<Artifact>) {
    && (forall i :: 0 <= i < |entries| ==> entries[i].name in PAYLOAD)
    && (forall i, j :: 0 <= i < j < |entries| ==> entries[i].name != entries[j].name)
    && (forall n :: n in PAYLOAD ==> exists i :: 0 <= i < |entries| && entries[i].name == n)
    && (forall i :: 0 <= i < |entries| ==> Fits(t, d, entries[i]))
  }

  predicate Fits(t: Tools, d: Directory, e: Artifact) {
    e.size == Some(|Content(d, e.name)|) && |Content(d, e.name)| > 0 && e.sha256 == t.digest(Content(d, e.name))
  }

  lemma {:induction false} NoMismatchExactly(t: Tools, d: Directory, entries: seq<Artifact>)
    ensures FirstMismatch(t, d, entries).None? <==> forall i :: 0 <= i < |entries| ==> Fits(t, d, entries[i])
  {
    if entries != [] {
      NoMismatchExactly(t, d, entries[1..]);
      assert forall i :: 0 < i < |entries| ==> entries[i] == entries[1..][i - 1];
    }
  }

  lemma {:induction false} NamesSize(entries: seq<Artifact>)
    ensures |Names(entries)| <= |entries|
    ensures |Names(entries)| == |entries| ==>
      forall i, j :: 0 <= i < j < |entries| ==> entries[i].name != entries[j].name
  {
    if entries != [] {
      var front, last := entries[..|entries| - 1], entries[|entries| - 1];
      NamesSize(front);
      NamesOfExtended(front, last);
      assert entries == front + [last];
      NamesMembers(front);
      assert forall i :: 0 <= i < |front| ==> front[i] == entries[i];
    }
  }

  /** As many entries as there are names, and with exactly these names, is a bijection; and conversely. */
  lemma CountedNamesExactly(entries: seq<Artifact>, names: set<Name>)
    ensures |entries| == |names| && Names(entries) == names <==>
      && (forall i :: 0 <= i < |entries| ==> entries[i].name in names)
      && (forall i, j :: 0 <= i < j < |entries| ==> entries[i].name != entries[j].name)
      && (forall n :: n in names ==> exists i :: 0 <= i < |entries| && entries[i].name == n)
  {
    hide Names;
    NamesSize(entries);
    NamesMembers(entries);
    if && (forall i :: 0 <= i < |entries| ==> entries[i].name in names)
       && (forall i, j :: 0 <= i < j < |entries| ==> entries[i].name != entries[j].name)
       && (forall n :: n in names ==> exists i :: 0 <= i < |entries| && entries[i].name == n) {
      assert Names(entries) == names;
      DistinctNamesSize(entries);
    }
  }

  lemma NamesMembers(entries: seq<Artifact>)
    ensures forall n :: n in Names(entries) <==> exists i :: 0 <= i < |entries| && entries[i].name == n
  {
    forall n ensures n in Names(entries) <==> exists i :: 0 <= i < |entries| && entries[i].name == n {
      forall i | 0 <= i < |entries| && entries[i].name == n ensures n in Names(entries) {
        assert entries[i] in entries;
      }
    }
  }

  lemma {:induction false} DistinctNamesSize(entries: seq<Artifact>)
    requires forall i, j :: 0 <= i < j < |entries| ==> entries[i].name != entries[j].name
    ensures |Names(entries)| == |entries|
  {
    if entries != [] {
      var front, last := entries[..|entries| - 1], entries[|entries| - 1];
      DistinctNamesSize(front);
      NamesOfExtended(front, last);
      assert entries == front + [last];
      NamesMembers(front);
    }
  }

  lemma NamesOfExtended(entries: seq<Artifact>, a: Artifact)
    ensures Names(entries + [a]) == Names(entries) + {a.name}
  {
    NamesMembers(entries);
    NamesMembers(entries + [a]);
    assert (entries + [a])[|entries|] == a;
    assert forall i :: 0 <= i < |entries| ==> (entries + [a])[i] == entries[i];
  }

  predicate IdentityMatches(t: Tools, m: Manifest, commit: string, tag: Option<string>) {
    && m.schemaVersion == 1 && m.repository == t.repository
    && IsFullCommit(commit) && m.commit == commit && (tag.Some? ==> m.tag == tag)
    && m.preview && m.limitations == t.limitations
  }

  /** A directory passes exactly when it holds the seven regular files and a manifest that describes the other bytes. */
  lemma VerifyExactly(t: Tools, d: Directory, commit: string, tag: Option<string>, m: Manifest)
    ensures Verify(t, d, commit, tag) == Ok(m) <==>
      && d.Keys == FILES && (forall n :: n in d ==> d[n].File?)
      && t.parse(Content(d, ManifestJson)) == Some(m)
      && IdentityMatches(t, m, commit, tag)
      && Describes(t, d, m.artifacts)
      && t.lines(Content(d, Sums)) == Some(ExpectedSums(t, d))
  {
    hide Content, ExpectedSums, Names, FirstMismatch, Fits, IsFullCommit, PAYLOAD, FILES;
    NoMismatchExactly(t, d, m.artifacts);
    CountedNamesExactly(m.artifacts, PAYLOAD);
  }

  ghost predicate Injective(f: Bytes -> string) {
    forall a, b :: f(a) == f(b) ==> a == b
  }

  lemma InjectiveExactly(f: Bytes -> string)
    ensures Injective(f) <==> forall a, b | a != b :: f(a) != f(b)
  {
  }

  /** With a collision-free digest, the manifest's bytes determine the bytes of every payload file. */
  lemma ManifestDeterminesPayload(t: Tools, c: Directory, d: Directory, commit: string, tag: Option<string>,
                                  commit': string, tag': Option<string>)
    requires Injective(t.digest)
    requires Verify(t, c, commit, tag).Ok? && Verify(t, d, commit', tag').Ok?
    requires Content(c, ManifestJson) == Content(d, ManifestJson)
    ensures forall n :: n in PAYLOAD ==> Content(c, n) == Content(d, n)
    ensures t.lines(Content(c, Sums)) == t.lines(Content(d, Sums))
  {
    hide Verify, Content, PAYLOAD;
    var m := Verify(t, c, commit, tag).value;
    VerifyExactly(t, c, commit, tag, m);
    VerifyExactly(t, d, commit', tag', Verify(t, d, commit', tag').value);
    forall n | n in PAYLOAD ensures Content(c, n) == Content(d, n) {
      var i :| 0 <= i < |m.artifacts| && m.artifacts[i].name == n;
      assert Fits(t, c, m.artifacts[i]) && Fits(t, d, m.artifacts[i]);
    }
    SameSums(t, c, d);
  }

  lemma SameSums(t: Tools, c: Directory, d: Directory)
    requires Content(c, ManifestJson) == Content(d, ManifestJson)
    requires forall n :: n in PAYLOAD ==> Content(c, n) == Content(d, n)
    ensures ExpectedSums(t, c) == ExpectedSums(t, d)
  {
    hide Content;
    forall i | 0 <= i < |SORTED_SUMMED| ensures Content(c, SORTED_SUMMED[i]) == Content(d, SORTED_SUMMED[i]) {
      assert SORTED_SUMMED[i] in PAYLOAD || SORTED_SUMMED[i] == ManifestJson;
    }
  }

  // ---- assembling ----

  datatype Git = Git(head: string, clean: bool, tags: map<string, string>)

  /** `source_identity` */
  function SourceIdentity(t: Tools, git: Git, commit: string, tag: Option<string>): Outcome<ReleaseError> {
    if !IsFullCommit(commit) || git.head != commit then Fail(CheckoutMismatch)
    else if !git.clean then Fail(DirtyCheckout)
    else if tag.None? then Pass
    else if !t.isPreviewTag(tag.value) then Fail(NotPreviewTag)
    else if tag.value !in git.tags || git.tags[tag.value] != commit then Fail(TagElsewhere)
    else Pass
  }

  /** What a build leaves behind, and the writers of the two generated texts. */
  datatype Build = Build(firmware: Option<Bytes>, spiffs: Option<Bytes>,
                         inventory: Bytes, firmwareBom: Bytes, frontendBom: Bytes,
                         write: Manifest -> Bytes, writeSums: seq<SumLine> -> Bytes)

  /** The writers write what the readers read, and `write_json` never writes an empty file. */
  ghost predicate WritesWhatIsRead(t: Tools, b: Build) {
    && (forall m :: t.parse(b.write(m)) == Some(m))
    && (forall ls :: t.lines(b.writeSums(ls)) == Some(ls))
    && b.inventory != [] && b.firmwareBom != [] && b.frontendBom != []
  }

  function ArtifactOf(t: Tools, d: Directory, n: Name): Artifact {
    Artifact(n, Some(|Content(d, n)|), t.digest(Content(d, n)))
  }

  function ArtifactsOf(t: Tools, d: Directory): seq<Artifact> {
    seq(|SORTED_PAYLOAD|, i requires 0 <= i < |SORTED_PAYLOAD| => ArtifactOf(t, d, SORTED_PAYLOAD[i]))
  }

  function ManifestOf(t: Tools, d: Directory, commit: string, tag: Option<string>): Manifest {
    Manifest(1, t.repository, commit, tag, true, t.limitations, ArtifactsOf(t, d))
  }

  function Payload(firmware: Bytes, spiffs: Bytes, b: Build): Directory {
    map[FirmwareBin := File(firmware), SpiffsBin := File(spiffs), Inventory := File(b.inventory),
        FirmwareBom := File(b.firmwareBom), FrontendBom := File(b.frontendBom)]
  }

  /** What `assemble` has written when it calls `verify`. */
  function Assemble(t: Tools, git: Git, b: Build, outExists: bool, commit: string,
      tag: Option<string>): Result<Directory, ReleaseError> {
    var identity := SourceIdentity(t, git, commit, tag);
    if identity.Fail? then Err(identity.error)
    else if outExists then Err(OutputExists)
    else if b.firmware.None? || b.firmware.value == [] then Err(MissingArtifact(FirmwareBin))
    else if b.spiffs.None? || b.spiffs.value == [] then Err(MissingArtifact(SpiffsBin))
    else
      var d := Payload(b.firmware.value, b.spiffs.value, b);
      var e := d[ManifestJson := File(b.write(ManifestOf(t, d, commit, tag)))];
      Ok(e[Sums := File(b.writeSums(ExpectedSums(t, e)))])
  }

  /**
   * Assembly goes ahead only for a clean checkout of the named commit, its own tag, a new directory and two
   * built images.
   */
  lemma AssembledExactly(t: Tools, git: Git, b: Build, outExists: bool, commit: string, tag: Option<string>)
    ensures Assemble(t, git, b, outExists, commit, tag).Ok? <==>
      && IsFullCommit(commit) && git.head == commit && git.clean && !outExists
      && (tag.Some? ==> t.isPreviewTag(tag.value) && tag.value in git.tags && git.tags[tag.value] == commit)
      && b.firmware.Some? && b.firmware.value != [] && b.spiffs.Some? && b.spiffs.value != []
  {
  }

  /** What assemble writes always passes its own final check. */
  lemma AssembledPasses(t: Tools, git: Git, b: Build, outExists: bool, commit: string, tag: Option<string>)
    requires WritesWhatIsRead(t, b) && Assemble(t, git, b, outExists, commit, tag).Ok?
    ensures var r := Verify(t, Assemble(t, git, b, outExists, commit, tag).value, commit, tag);
      r.Ok? && r.value.commit == git.head && r.value.tag == tag
  {
    hide Verify, IsFullCommit, WritesWhatIsRead, Payload, ExpectedSums, ManifestOf;
    AssembledExactly(t, git, b, outExists, commit, tag);
    var d := Payload(b.firmware.value, b.spiffs.value, b);
    var m := ManifestOf(t, d, commit, tag);
    var e := d[ManifestJson := File(b.write(m))];
    var f := Assemble(t, git, b, outExists, commit, tag).value;
    assert f == e[Sums := File(b.writeSums(ExpectedSums(t, e)))];
    ReadersReturn(t, b, m, ExpectedSums(t, e));
    PayloadContents(b.firmware.value, b.spiffs.value, b);
    AddedFiles(d, File(b.write(m)), File(b.writeSums(ExpectedSums(t, e))));
    SameSums(t, e, f);
    ArtifactsDescribe(t, d, f, b);
    ManifestIdentity(t, d, commit, tag);
    VerifyExactly(t, f, commit, tag, m);
  }

  lemma ManifestIdentity(t: Tools, d: Directory, commit: string, tag: Option<string>)
    requires IsFullCommit(commit)
    ensures IdentityMatches(t, ManifestOf(t, d, commit, tag), commit, tag)
    ensures ManifestOf(t, d, commit, tag).artifacts == ArtifactsOf(t, d)
    ensures ManifestOf(t, d, commit, tag).commit == commit && ManifestOf(t, d, commit, tag).tag == tag
  {
  }

  lemma PayloadContents(firmware: Bytes, spiffs: Bytes, b: Build)
    requires firmware != [] && spiffs != [] && b.inventory != [] && b.firmwareBom != [] && b.frontendBom != []
    ensures var d := Payload(firmware, spiffs, b);
      d.Keys == PAYLOAD && forall n :: n in PAYLOAD ==> d[n].File? && Content(d, n) != []
  {
  }

  /** Adding the two generated files leaves the payload's contents alone. */
  lemma AddedFiles(d: Directory, manifest: Entry, sums: Entry)
    requires d.Keys == PAYLOAD && (forall n :: n in PAYLOAD ==> d[n].File?) && manifest.File? && sums.File?
    ensures var e := d[ManifestJson := manifest]; var f := e[Sums := sums];
      && f.Keys == FILES && (forall n :: n in f ==> f[n].File?)
      && (forall n :: n in PAYLOAD ==> Content(f, n) == Content(d, n) && Content(e, n) == Content(d, n))
      && Content(f, ManifestJson) == Content(e, ManifestJson) == manifest.content
      && Content(f, Sums) == sums.content
  {
  }

  lemma ReadersReturn(t: Tools, b: Build, m: Manifest, ls: seq<SumLine>)
    requires WritesWhatIsRead(t, b)
    ensures t.parse(b.write(m)) == Some(m) && t.lines(b.writeSums(ls)) == Some(ls)
    ensures b.inventory != [] && b.firmwareBom != [] && b.frontendBom != []
  {
  }

  lemma ArtifactsDescribe(t: Tools, d: Directory, f: Directory, b: Build)
    requires forall n :: n in PAYLOAD ==> Content(f, n) == Content(d, n) && Content(d, n) != []
    ensures Describes(t, f, ArtifactsOf(t, d))
  {
    hide Content, PAYLOAD, SORTED_PAYLOAD;
    SortedPayloadIsPayload();
    var entries := ArtifactsOf(t, d);
    assert |entries| == |SORTED_PAYLOAD|;
    forall i | 0 <= i < |entries| ensures entries[i].name == SORTED_PAYLOAD[i] && Fits(t, f, entries[i]) {
      assert entries[i] == ArtifactOf(t, d, SORTED_PAYLOAD[i]);
    }
    forall n | n in PAYLOAD ensures exists i :: 0 <= i < |entries| && entries[i].name == n {
      var i :| 0 <= i < |SORTED_PAYLOAD| && SORTED_PAYLOAD[i] == n;
      assert entries[i].name == n;
    }
  }

  lemma SortedPayloadIsPayload()
    ensures forall i :: 0 <= i < |SORTED_PAYLOAD| ==> SORTED_PAYLOAD[i] in PAYLOAD
    ensures forall i, j :: 0 <= i < j < |SORTED_PAYLOAD| ==> SORTED_PAYLOAD[i] != SORTED_PAYLOAD[j]
    ensures forall n :: n in PAYLOAD ==> exists i :: 0 <= i < |SORTED_PAYLOAD| && SORTED_PAYLOAD[i] == n
  {
    var s := SORTED_PAYLOAD;
    assert s[0] == Inventory && s[1] == FirmwareBin && s[2] == FirmwareBom && s[3] == FrontendBom && s[4] == SpiffsBin;
  }

  // ---- duplicate keys ----

  /** `unique_object`: a JSON object's pairs as a dictionary, unless a key occurs twice. */
  method UniqueObject<V>(pairs: seq<(string, V)>) returns (r: Option<map<string, V>>)
    ensures r.Some? <==> forall i, j :: 0 <= i < j < |pairs| ==> pairs[i].0 != pairs[j].0
    ensures r.Some? ==>
      |r.value| == |pairs|
      && forall i :: 0 <= i < |pairs| ==> pairs[i].0 in r.value && r.value[pairs[i].0] == pairs[i].1
  {
    var result: map<string, V> := map[];
    for k := 0 to |pairs|
      invariant forall i, j :: 0 <= i < j < k ==> pairs[i].0 != pairs[j].0
      invariant forall i :: 0 <= i < k ==> pairs[i].0 in result && result[pairs[i].0] == pairs[i].1
      invariant forall key :: key in result ==> exists i :: 0 <= i < k && pairs[i].0 == key
      invariant |result| == k
    {
      var (key, value) := pairs[k];
      if key in result {
        return None;
      }
      result := result[key := value];
    }
    return Some(result);
  }
}
