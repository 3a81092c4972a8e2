/** What publishing evidence does to a verified release: its manifest gains two
    entries and stays verifiable, by the script that wrote it and by the one that
    checks the draft. */
module ReleaseExtension {
  import opened ReleaseManifest

  // --- The output names -----------------------------------------------------

  predicate IsDigit(c: char) {
    '0' <= c <= '9'
  }

  predicate IsTagSuffixChar(c: char) {
    IsNameStart(c) || c == '.' || c == '-'
  }

  predicate Digits(s: string) {
    s != "" && forall c <- s :: IsDigit(c)
  }

  predicate IsTagSuffix(suffix: string) {
    suffix == "" || (|suffix| > 1 && suffix[0] == '-' && forall c <- suffix :: IsTagSuffixChar(c))
  }

  function Tag(major: string, minor: string, patch: string, suffix: string): string {
    "v" + major + "." + minor + "." + patch + suffix
  }

  /** Release tags: `v`, three numbers, and perhaps a suffix after a hyphen. */
  ghost predicate IsTag(tag: string) {
    exists major, minor, patch, suffix ::
      Digits(major) && Digits(minor) && Digits(patch) && IsTagSuffix(suffix) && tag == Tag(major, minor, patch, suffix)
  }

  function ArchiveSuffix(): string { "-provider-matrix-evidence.tar.gz" }

  function EvidenceSuffix(): string { "-provider-matrix-evidence-manifest.json" }

  function ArchiveName(tag: string): string {
    "unpin-" + tag + ArchiveSuffix()
  }

  function EvidenceName(tag: string): string {
    "unpin-" + tag + EvidenceSuffix()
  }

  predicate IsPlain(s: string) {
    forall c <- s :: IsNameChar(c)
  }

  lemma PlainConcat(a: string, b: string)
    requires IsPlain(a) && IsPlain(b)
    ensures IsPlain(a + b)
  {}

  lemma TagIsPlain(tag: string)
    requires IsTag(tag)
    ensures IsPlain(tag)
  {
    hide Tag;
    var major, minor, patch, suffix :|
      Digits(major) && Digits(minor) && Digits(patch) && IsTagSuffix(suffix) && tag == Tag(major, minor, patch, suffix);
    JoinedIsPlain(major, minor, patch, suffix);
  }

  lemma JoinedIsPlain(major: string, minor: string, patch: string, suffix: string)
    requires IsPlain(major) && IsPlain(minor) && IsPlain(patch) && IsPlain(suffix)
    ensures IsPlain(Tag(major, minor, patch, suffix))
  {
    assert IsPlain("v") && IsPlain(".");
    hide IsPlain;
    PlainConcat("v", major);
    PlainConcat("v" + major, ".");
    PlainConcat("v" + major + ".", minor);
    PlainConcat("v" + major + "." + minor, ".");
    PlainConcat("v" + major + "." + minor + ".", patch);
    PlainConcat("v" + major + "." + minor + "." + patch, suffix);
  }

  lemma NameAround(tag: string, suffix: string)
    requires IsPlain(tag) && IsPlain(suffix) && suffix != ""
    ensures var name := "unpin-" + tag + suffix;
            IsSafeName(name) && name[|name| - 1] == suffix[|suffix| - 1]
  {
    var name := "unpin-" + tag + suffix;
    PlainConcat("unpin-", tag);
    PlainConcat("unpin-" + tag, suffix);
    assert name[0] == 'u' && ManifestName()[0] == 'S';
  }

  lemma SuffixesArePlain()
    ensures IsPlain(ArchiveSuffix()) && IsPlain(EvidenceSuffix())
    ensures ArchiveSuffix()[|ArchiveSuffix()| - 1] == 'z' && EvidenceSuffix()[|EvidenceSuffix()| - 1] == 'n'
    ensures ArchiveSuffix() != "" && EvidenceSuffix() != ""
  {}

  /** Whatever the tag, both outputs have safe names, and not the same. */
  lemma {:induction false} OutputNamesAreSafe(tag: string)
    requires IsTag(tag)
    ensures IsSafeName(ArchiveName(tag)) && IsSafeName(EvidenceName(tag)) && ArchiveName(tag) != EvidenceName(tag)
  {
    hide IsTag, IsPlain, IsSafeName, ArchiveSuffix, EvidenceSuffix;
    SuffixesArePlain();
    TagIsPlain(tag);
    NameAround(tag, ArchiveSuffix());
    NameAround(tag, EvidenceSuffix());
  }

  // --- The extended manifest -------------------------------------------------

  function EntryText(e: Entry): string {
    Line(e) + "\n"
  }

  lemma LineIsPlain(digest: Digest, name: string)
    requires IsSafeName(name)
    ensures forall c <- Line(Entry(digest, name)) :: !IsBreak(c)
  {}

  lemma AppendEntry(text: string, digest: Digest, name: string, names: seq<string>)
    requires IsSafeName(name) && EndsInNewline(text)
    requires Names(Lines(text)) == Ok(names) && name !in names
    ensures var e := Entry(digest, name);
            var longer := text + EntryText(e);
            && EndsInNewline(longer) && Lines(longer) == Lines(text) + [Line(e)]
            && Names(Lines(longer)) == Ok(names + [name])
  {
    hide Lines, IsBreak, IsSafeName;
    var e := Entry(digest, name);
    LineIsPlain(digest, name);
    LinesAppend(text, Line(e));
    NameIsNotEmpty(name);
    EntryRoundTrip(digest, name);
    var lines := Lines(text) + [Line(e)];
    assert lines[..|lines| - 1] == Lines(text);
  }

  lemma NameIsNotEmpty(name: string)
    requires IsSafeName(name)
    ensures name != ""
  {}

  /** The two files added, with the digests their entries carry. */
  datatype Evidence = Evidence(archiveName: string, archive: Node, evidenceName: string, manifest: Node)

  ghost predicate IsEvidence(e: Evidence, dir: Assets) {
    && e.archive.Regular? && e.manifest.Regular?
    && IsSafeName(e.archiveName) && IsSafeName(e.evidenceName) && e.archiveName != e.evidenceName
    && e.archiveName !in dir && e.evidenceName !in dir
  }

  function ArchiveEntry(sha: Sha256, e: Evidence): Entry
    requires e.archive.Regular?
  {
    Entry(sha(e.archive.content), e.archiveName)
  }

  function ManifestEntry(sha: Sha256, e: Evidence): Entry
    requires e.manifest.Regular?
  {
    Entry(sha(e.manifest.content), e.evidenceName)
  }

  function ExtendedText(sha: Sha256, text: string, e: Evidence): string
    requires e.archive.Regular? && e.manifest.Regular?
  {
    text + EntryText(ArchiveEntry(sha, e)) + EntryText(ManifestEntry(sha, e))
  }

  /** The directory after a publication whose new manifest is the file `checksums`. */
  function Extended(sha: Sha256, dir: Assets, text: string, e: Evidence, checksums: nat): Assets
    requires e.archive.Regular? && e.manifest.Regular?
  {
    dir[e.archiveName := e.archive][e.evidenceName := e.manifest]
       [ManifestName() := Regular(checksums, Utf8(ExtendedText(sha, text, e)))]
  }

  ghost predicate IsVerified(sha: Sha256, dir: Assets, text: string, names: seq<string>) {
    && IsRegular(dir, ManifestName()) && dir[ManifestName()].content == Utf8(text)
    && VerifiedNames(sha, dir) == Ok(names)
  }

  lemma ListedNamesExist(sha: Sha256, dir: Assets, text: string, names: seq<string>)
    requires IsVerified(sha, dir, text, names)
    ensures EndsInNewline(text) && Names(Lines(text)) == Ok(names)
    ensures forall n <- names :: n in dir && n != ManifestName()
    ensures forall i | 0 <= i < |Lines(text)| :: Attests(sha, dir, Lines(text)[i])
  {
    hide Lines, IsEntry, EntryOf;
    CheckedExactly(sha, dir, Lines(text));
    NamesExactly(Lines(text));
  }

  lemma AttestedStill(sha: Sha256, dir: Assets, text: string, e: Evidence, checksums: nat, line: string)
    requires IsEvidence(e, dir) && Attests(sha, dir, line)
    ensures Attests(sha, Extended(sha, dir, text, e, checksums), line)
  {
    hide IsEntry, EntryOf, ExtendedText;
  }

  lemma EntryIsAttested(sha: Sha256, dir: Assets, name: string)
    requires IsSafeName(name) && IsRegular(dir, name)
    ensures Attests(sha, dir, Line(Entry(sha(dir[name].content), name)))
  {
    EntryRoundTrip(sha(dir[name].content), name);
  }

  lemma {:induction false} ExtendedLines(sha: Sha256, dir: Assets, text: string, names: seq<string>, e: Evidence)
    requires IsVerified(sha, dir, text, names) && IsEvidence(e, dir)
    ensures var longer := ExtendedText(sha, text, e);
            && EndsInNewline(longer)
            && Lines(longer) == Lines(text) + [Line(ArchiveEntry(sha, e)), Line(ManifestEntry(sha, e))]
            && Names(Lines(longer)) == Ok(names + [e.archiveName, e.evidenceName])
  {
    hide Lines, Line, IsVerified, IsSafeName, EntryText;
    ListedNamesExist(sha, dir, text, names);
    AppendEntry(text, sha(e.archive.content), e.archiveName, names);
    AppendEntry(text + EntryText(ArchiveEntry(sha, e)), sha(e.manifest.content), e.evidenceName, names + [e.archiveName]);
    assert names + [e.archiveName] + [e.evidenceName] == names + [e.archiveName, e.evidenceName];
    assert Lines(text) + [Line(ArchiveEntry(sha, e))] + [Line(ManifestEntry(sha, e))]
        == Lines(text) + [Line(ArchiveEntry(sha, e)), Line(ManifestEntry(sha, e))];
  }

  /** The extended manifest is verified, with exactly the two names more: no name is
      doubled, because every listed name was there and neither output was. */
  lemma ExtendedIsVerified(sha: Sha256, dir: Assets, text: string, names: seq<string>, e: Evidence, checksums: nat)
    requires IsVerified(sha, dir, text, names) && IsEvidence(e, dir)
    ensures var after := Extended(sha, dir, text, e, checksums);
            var more := names + [e.archiveName, e.evidenceName];
            IsVerified(sha, after, ExtendedText(sha, text, e), more) && Distinct(more)
  {
    hide Lines, Line, IsEntry, EntryOf, ExtendedText, Attests, IsSafeName;
    var after := Extended(sha, dir, text, e, checksums);
    var longer := ExtendedText(sha, text, e);
    ListedNamesExist(sha, dir, text, names);
    ExtendedLines(sha, dir, text, names, e);
    NamesExactly(Lines(longer));
    SafeIsNotManifest(e.archiveName);
    SafeIsNotManifest(e.evidenceName);
    EntryIsAttested(sha, after, e.archiveName);
    EntryIsAttested(sha, after, e.evidenceName);
    forall i | 0 <= i < |Lines(longer)| ensures Attests(sha, after, Lines(longer)[i]) {
      if i < |Lines(text)| {
        AttestedStill(sha, dir, text, e, checksums, Lines(text)[i]);
      }
    }
    CheckedExactly(sha, after, Lines(longer));
  }

  lemma SafeIsNotManifest(name: string)
    requires IsSafeName(name)
    ensures name != ManifestName()
  {}

  // --- The draft check --------------------------------------------------------

  /** The assets listed are those of the manifest and the manifest itself. */
  predicate VerifySet(assets: set<string>, content: Content) {
    && ChecksumNames(content).Ok?
    && assets == ToSet(ChecksumNames(content).value) + {ManifestName()}
  }

  lemma ReadersAgree(text: string)
    requires EndsInNewline(text)
    ensures ChecksumNames(Utf8(text)) == Names(Lines(text))
  {
    hide Lines, Translate, Names;
    TranslateKeepsLines(text);
    TranslateEnd(text);
  }

  /** The draft check holds of the extended release exactly when it held before. */
  lemma VerifySetExtends(sha: Sha256, dir: Assets, text: string, names: seq<string>, e: Evidence, assets: set<string>)
    requires IsVerified(sha, dir, text, names) && IsEvidence(e, dir) && assets <= dir.Keys
    ensures VerifySet(assets + {e.archiveName, e.evidenceName}, Utf8(ExtendedText(sha, text, e))) <==>
            VerifySet(assets, Utf8(text))
  {
    hide Lines, Line, ChecksumNames, Names, ExtendedText, IsVerified, IsSafeName;
    ListedNamesExist(sha, dir, text, names);
    ExtendedLines(sha, dir, text, names, e);
    ReadersAgree(text);
    ReadersAgree(ExtendedText(sha, text, e));
    var outputs := {e.archiveName, e.evidenceName};
    assert ToSet(names + [e.archiveName, e.evidenceName]) == ToSet(names) + outputs;
    SafeIsNotManifest(e.archiveName);
    SafeIsNotManifest(e.evidenceName);
    assert assets + outputs - outputs == assets;
    assert ToSet(names) + outputs + {ManifestName()} - outputs == ToSet(names) + {ManifestName()};
  }

  predicate EndsWith(name: string, suffix: string) {
    |name| >= |suffix| && name[|name| - |suffix|..] == suffix
  }

  /** The names a draft may not be refreshed over. */
  predicate IsEvidenceName(name: string) {
    EndsWith(name, ArchiveSuffix()) || EndsWith(name, EvidenceSuffix())
  }

  /** Once evidence is published, the draft is refused by `reject-evidence`. */
  lemma PublishedDraftIsRefused(tag: string, assets: set<string>)
    requires ArchiveName(tag) in assets || EvidenceName(tag) in assets
    ensures exists n <- assets :: IsEvidenceName(n)
  {
    var archive, evidence := ArchiveName(tag), EvidenceName(tag);
    assert archive[|"unpin-" + tag|..] == ArchiveSuffix();
    assert evidence[|"unpin-" + tag|..] == EvidenceSuffix();
    if archive in assets {
      assert IsEvidenceName(archive);
    } else {
      assert IsEvidenceName(evidence);
    }
  }

  // --- Listing the draft -------------------------------------------------------

  function Stripped(line: string): string {
    if line != "" && line[|line| - 1] == '\n' then line[..|line| - 1] else line
  }

  /** A draft listing is accepted exactly when its lines are distinct asset names. */
  method AssetNames(lines: seq<string>) returns (ok: bool, names: set<string>)
    ensures ok <==>
            && (forall i | 0 <= i < |lines| :: IsAssetName(Stripped(lines[i])))
            && (forall i, j | 0 <= i < j < |lines| :: Stripped(lines[i]) != Stripped(lines[j]))
    ensures ok ==> names == (set i | 0 <= i < |lines| :: Stripped(lines[i]))
  {
    names := {};
    for i := 0 to |lines|
      invariant forall k | 0 <= k < i :: IsAssetName(Stripped(lines[k]))
      invariant forall k, j | 0 <= k < j < i :: Stripped(lines[k]) != Stripped(lines[j])
      invariant names == (set k | 0 <= k < i :: Stripped(lines[k]))
    {
      var name := Stripped(lines[i]);
      if name == "" || '\n' in name || !IsAssetName(name) {
        assert !IsAssetName(name);
        return false, {};
      }
      if name in names {
        return false, {};
      }
      names := names + {name};
    }
    return true, names;
  }
}
