/** The assets that .github/workflows/release.yml ships, and the manifest that it writes
    over them with `shasum`: both readers of the manifest accept what is shipped. */
module ReleaseNames {
  import opened ReleaseManifest
  import opened ReleaseExtension

  // --- Which characters a name may have ------------------------------------------------

  /** Letters, digits, dot, underscore and hyphen, by their ASCII codes, and nothing else;
      a name starts with a letter or a digit. */
  lemma NameCharactersAre(c: char)
    ensures var code := c as int;
            && (IsNameStart(c) <==> 48 <= code <= 57 || 65 <= code <= 90 || 97 <= code <= 122)
            && (IsLowerHex(c) <==> 48 <= code <= 57 || 97 <= code <= 102)
            && (IsNameChar(c) <==>
                  48 <= code <= 57 || 65 <= code <= 90 || 97 <= code <= 122 || code == 45 || code == 46 || code == 95)
  {}

  ghost predicate AllDecimal(s: string) {
    |s| > 0 && forall i | 0 <= i < |s| :: 48 <= s[i] as int <= 57
  }

  /** A hyphen and then letters, digits, dots and hyphens, at least one; or nothing. */
  ghost predicate IsPrerelease(s: string) {
    s == "" || (|s| >= 2 && s[0] == '-' && forall i | 0 <= i < |s| ::
      var code := s[i] as int; 48 <= code <= 57 || 65 <= code <= 90 || 97 <= code <= 122 || code == 45 || code == 46)
  }

  lemma PrereleaseIs(s: string)
    ensures IsTagSuffix(s) <==> IsPrerelease(s)
  {
    if IsPrerelease(s) && s != "" {
      forall c | c in s ensures IsTagSuffixChar(c) {
        var i :| 0 <= i < |s| && s[i] == c;
        NameCharactersAre(c);
      }
    }
    if IsTagSuffix(s) && s != "" {
      forall i | 0 <= i < |s|
        ensures var code := s[i] as int;
                48 <= code <= 57 || 65 <= code <= 90 || 97 <= code <= 122 || code == 45 || code == 46
      {
        assert s[i] in s;
        NameCharactersAre(s[i]);
      }
    }
  }

  lemma DecimalIs(s: string)
    ensures Digits(s) <==> AllDecimal(s)
  {
    assert forall i | 0 <= i < |s| :: s[i] in s;
  }

  lemma PartsAre(major: string, minor: string, patch: string, suffix: string)
    ensures (Digits(major) && Digits(minor) && Digits(patch) && IsTagSuffix(suffix)) <==>
            AllDecimal(major) && AllDecimal(minor) && AllDecimal(patch) && IsPrerelease(suffix)
  {
    hide *;
    DecimalIs(major);
    DecimalIs(minor);
    DecimalIs(patch);
    PrereleaseIs(suffix);
  }

  /** A release tag is a `v`, three numbers with dots between them, and perhaps a
      pre-release suffix. */
  lemma TagsAre(tag: string)
    ensures IsTag(tag) <==>
            exists major, minor, patch, suffix ::
              AllDecimal(major) && AllDecimal(minor) && AllDecimal(patch) && IsPrerelease(suffix)
              && tag == "v" + major + "." + minor + "." + patch + suffix
  {
    hide Digits, AllDecimal, IsTagSuffix, IsPrerelease;
    if IsTag(tag) {
      var major, minor, patch, suffix :|
        Digits(major) && Digits(minor) && Digits(patch) && IsTagSuffix(suffix) && tag == Tag(major, minor, patch, suffix);
      PartsAre(major, minor, patch, suffix);
      assert tag == "v" + major + "." + minor + "." + patch + suffix;
    }
    if major, minor, patch, suffix :|
         AllDecimal(major) && AllDecimal(minor) && AllDecimal(patch) && IsPrerelease(suffix)
         && tag == "v" + major + "." + minor + "." + patch + suffix {
      PartsAre(major, minor, patch, suffix);
      assert tag == Tag(major, minor, patch, suffix);
    }
  }

  // --- What is shipped --------------------------------------------------------------------

  function Targets(): seq<string> {
    ["x86_64-unknown-linux-gnu", "aarch64-apple-darwin", "x86_64-apple-darwin"]
  }

  function ShippedName(desktop: bool, tag: string, target: string, suffix: string): string {
    (if desktop then "unpin-desktop-" else "unpin-") + tag + "-" + target + suffix
  }

  /** An archive or a bill of materials, of the program or of the desktop workbench. */
  ghost predicate IsShipped(name: string) {
    exists desktop, tag, target, suffix ::
      IsTag(tag) && target in Targets() && suffix in [".tar.gz", ".cdx.json"]
      && name == ShippedName(desktop, tag, target, suffix)
  }

  lemma TargetsArePlain(target: string)
    requires target in Targets()
    ensures IsPlain(target)
  {
    assert IsPlain("x86_64-unknown-linux-gnu");
    assert IsPlain("aarch64-apple-darwin");
    assert IsPlain("x86_64-apple-darwin");
  }

  lemma PartsArePlain()
    ensures IsPlain("unpin-desktop-") && IsPlain("unpin-") && IsPlain("-") && IsPlain(".tar.gz") && IsPlain(".cdx.json")
  {}

  lemma ShippedNameIsSafe(desktop: bool, tag: string, target: string, suffix: string)
    requires IsTag(tag) && target in Targets() && suffix in [".tar.gz", ".cdx.json"]
    ensures IsSafeName(ShippedName(desktop, tag, target, suffix))
  {
    hide IsTag, IsPlain, IsSafeName, Targets;
    var prefix := if desktop then "unpin-desktop-" else "unpin-";
    PartsArePlain();
    TagIsPlain(tag);
    TargetsArePlain(target);
    PlainConcat(prefix, tag);
    PlainConcat(prefix + tag, "-");
    PlainConcat(prefix + tag + "-", target);
    PlainConcat(prefix + tag + "-" + target, suffix);
    PlainIsSafe(ShippedName(desktop, tag, target, suffix));
  }

  lemma PlainIsSafe(name: string)
    requires IsPlain(name) && name != "" && name[0] == 'u'
    ensures IsSafeName(name)
  {
    assert ManifestName()[0] == 'S';
  }

  lemma ShippedIsSafe(name: string)
    requires IsShipped(name)
    ensures IsSafeName(name)
  {
    hide IsSafeName, IsTag, Targets;
    var desktop, tag, target, suffix :|
      IsTag(tag) && target in Targets() && suffix in [".tar.gz", ".cdx.json"]
      && name == ShippedName(desktop, tag, target, suffix);
    ShippedNameIsSafe(desktop, tag, target, suffix);
  }

  // --- The manifest that is written ---------------------------------------------------------

  ghost predicate AreFiles(dir: Assets, names: seq<string>) {
    forall i | 0 <= i < |names| :: IsRegular(dir, names[i])
  }

  /** One line for each file, as `shasum` writes it. */
  function ChecksumText(sha: Sha256, dir: Assets, names: seq<string>): string
    requires forall i | 0 <= i < |names| :: IsRegular(dir, names[i])
  {
    if names == [] then ""
    else
      var name := names[|names| - 1];
      assert IsRegular(dir, name);
      ChecksumText(sha, dir, names[..|names| - 1]) + (Line(Entry(sha(dir[name].content), name)) + "\n")
  }

  lemma {:induction false} WrittenLines(sha: Sha256, dir: Assets, names: seq<string>)
    requires AreFiles(dir, names) && Distinct(names)
    requires forall i | 0 <= i < |names| :: IsSafeName(names[i])
    ensures var text := ChecksumText(sha, dir, names);
            && (names != [] ==> EndsInNewline(text)) && |Lines(text)| == |names|
            && Names(Lines(text)) == Ok(names)
            && forall i | 0 <= i < |names| :: Attests(sha, dir, Lines(text)[i])
    decreases |names|
  {
    hide Lines, IsSafeName, IsEntry, EntryOf, Attests;
    if names == [] {
      NoLines();
    } else {
      var k := |names| - 1;
      var front, name := names[..k], names[k];
      WrittenLines(sha, dir, front);
      var text := ChecksumText(sha, dir, front);
      var digest := sha(dir[name].content);
      LineIsPlain(digest, name);
      LinesAppend(text, Line(Entry(digest, name)));
      AppendName(Lines(text), digest, front, name);
      EntryIsAttested(sha, dir, name);
      assert names == front + [name];
    }
  }

  lemma NoLines()
    ensures Lines("") == []
  {}

  lemma AppendName(lines: seq<string>, digest: Digest, names: seq<string>, name: string)
    requires Names(lines) == Ok(names) && IsSafeName(name) && name !in names
    ensures Names(lines + [Line(Entry(digest, name))]) == Ok(names + [name])
  {
    hide IsSafeName;
    NameIsNotEmpty(name);
    EntryRoundTrip(digest, name);
    var all := lines + [Line(Entry(digest, name))];
    assert all[..|all| - 1] == lines;
  }

  /** A manifest written over files of distinct safe names is verified, and read back as
      those names in that order. */
  lemma WrittenManifestIsVerified(sha: Sha256, dir: Assets, names: seq<string>, file: nat)
    requires names != [] && AreFiles(dir, names) && Distinct(names)
    requires forall i | 0 <= i < |names| :: IsSafeName(names[i])
    requires ManifestName() in dir && dir[ManifestName()] == Regular(file, Utf8(ChecksumText(sha, dir, names)))
    ensures VerifiedNames(sha, dir) == Ok(names)
    ensures ChecksumNames(dir[ManifestName()].content) == Ok(names)
  {
    hide Lines, Names, IsSafeName, Attests, ChecksumText;
    var text := ChecksumText(sha, dir, names);
    WrittenLines(sha, dir, names);
    CheckedExactly(sha, dir, Lines(text));
    ReadersAgree(text);
  }

  /** So whatever of its assets the workflow ships, under any release tag, its manifest
      is accepted by both readers, with exactly those names. */
  lemma ShippedReleaseIsVerified(sha: Sha256, dir: Assets, names: seq<string>, file: nat)
    requires names != [] && AreFiles(dir, names) && Distinct(names)
    requires forall i | 0 <= i < |names| :: IsShipped(names[i])
    requires ManifestName() in dir && dir[ManifestName()] == Regular(file, Utf8(ChecksumText(sha, dir, names)))
    ensures VerifiedNames(sha, dir) == Ok(names) && ChecksumNames(dir[ManifestName()].content) == Ok(names)
  {
    hide IsSafeName, IsShipped, VerifiedNames, ChecksumNames, ChecksumText;
    forall i | 0 <= i < |names| ensures IsSafeName(names[i]) {
      ShippedIsSafe(names[i]);
    }
    WrittenManifestIsVerified(sha, dir, names, file);
  }

  // --- What is refused ------------------------------------------------------------------------

  /** The draft of a shipped release is in order exactly when its assets are the names
      listed and the manifest. */
  lemma DraftIsChecked(sha: Sha256, dir: Assets, names: seq<string>, file: nat, assets: set<string>)
    requires names != [] && AreFiles(dir, names) && Distinct(names)
    requires forall i | 0 <= i < |names| :: IsShipped(names[i])
    requires ManifestName() in dir && dir[ManifestName()] == Regular(file, Utf8(ChecksumText(sha, dir, names)))
    ensures VerifySet(assets, dir[ManifestName()].content) <==>
            forall name :: name in assets <==> name in names || name == "SHA256SUMS"
  {
    ShippedReleaseIsVerified(sha, dir, names, file);
    hide ChecksumNames, IsShipped, ChecksumText, Distinct, AreFiles;
    assert forall name :: name in ToSet(names) <==> name in names;
  }

  // --- Which names are evidence ---------------------------------------------------------------

  lemma EndIs(name: string, suffix: string)
    ensures EndsWith(name, suffix) <==> exists front: string :: name == front + suffix
  {
    if EndsWith(name, suffix) {
      assert name == name[..|name| - |suffix|] + suffix;
    }
    if front: string :| name == front + suffix {
      assert name[|name| - |suffix|..] == suffix;
    }
  }

  /** The names a draft is refused for are those that end in one of the two suffixes. */
  lemma EvidenceNamesAre(name: string)
    ensures IsEvidenceName(name) <==>
            exists front: string ::
              name == front + "-provider-matrix-evidence.tar.gz" || name == front + "-provider-matrix-evidence-manifest.json"
  {
    EndIs(name, ArchiveSuffix());
    EndIs(name, EvidenceSuffix());
    hide EndsWith;
    if front: string :| name == front + ArchiveSuffix() { assert name == front + "-provider-matrix-evidence.tar.gz"; }
    if front: string :| name == front + EvidenceSuffix() {
      assert name == front + "-provider-matrix-evidence-manifest.json";
    }
  }

  /** Nothing that is shipped is one, so a draft is refused only once evidence is published. */
  lemma ShippedIsNoEvidence(desktop: bool, tag: string, target: string, suffix: string)
    requires target in Targets() && suffix in [".tar.gz", ".cdx.json"]
    ensures !IsEvidenceName(ShippedName(desktop, tag, target, suffix))
  {
    var name := ShippedName(desktop, tag, target, suffix);
    var front := (if desktop then "unpin-desktop-" else "unpin-") + tag + "-" + target;
    assert name == front + suffix;
    var last := front[|front| - 1];
    assert last == target[|target| - 1];
    assert last == 'u' || last == 'n';
    if suffix == ".tar.gz" {
      assert name[|name| - 8] == last && name[|name| - 1] == 'z';
      assert ArchiveSuffix()[|ArchiveSuffix()| - 8] == 'e' && EvidenceSuffix()[|EvidenceSuffix()| - 1] == 'n';
    } else {
      assert name[|name| - 6] == 'x' && name[|name| - 1] == 'n';
      assert ArchiveSuffix()[|ArchiveSuffix()| - 1] == 'z' && EvidenceSuffix()[|EvidenceSuffix()| - 6] == 't';
    }
  }

  /** A line of a listing is a name with a newline, or without one at the end. */
  lemma StrippedIs(name: string)
    ensures Stripped(name + "\n") == name
    ensures name == "" || name[|name| - 1] != '\n' ==> Stripped(name) == name
  {}

  /** The characters `str.splitlines` breaks at, by their code points. */
  lemma BreaksAre(c: char)
    ensures IsBreak(c) <==>
            var code := c as int;
            10 <= code <= 13 || 28 <= code <= 30 || code == 0x85 || code == 0x2028 || code == 0x2029
  {}

  lemma OutputNamesAre(tag: string)
    ensures ArchiveName(tag) == "unpin-" + tag + "-provider-matrix-evidence.tar.gz"
    ensures EvidenceName(tag) == "unpin-" + tag + "-provider-matrix-evidence-manifest.json"
    ensures ManifestName() == "SHA256SUMS"
  {}

  datatype Fault = NoFault | Fault(error: ManifestError)

  /** What is wrong with a line after lines that listed `before`, the first thing first. */
  ghost function LineFault(sha: Sha256, dir: Assets, line: string, before: seq<string>): Fault {
    if |line| < 67 || line[64] != ' ' || line[65] != ' ' || exists i | 0 <= i < 64 :: !IsLowerHex(line[i])
    then Fault(InvalidEntry)
    else
      var digest, name := line[..64], line[66..];
      if !IsAssetName(name) || name == "SHA256SUMS" then Fault(UnsafeName(name))
      else if name in before then Fault(Duplicate)
      else if name !in dir || !dir[name].Regular? then Fault(AssetMissing(name))
      else if sha(dir[name].content) != digest then Fault(Mismatch(name))
      else NoFault
  }

  lemma NextIs(sha: Sha256, dir: Assets, line: string, before: seq<string>)
    ensures NextAsset(sha, dir, line, before) ==
            match LineFault(sha, dir, line, before)
            case NoFault => Ok(line[66..])
            case Fault(e) => Err(e)
  {
    hide IsAssetName;
    if |line| > 66 { assert line[64..66] == "  " <==> line[64] == ' ' && line[65] == ' '; }
  }

  /** The first line with something wrong decides, and what is wrong with it first is
      reported; the names before it are those of the lines before it. */
  lemma FirstFaultIsReported(sha: Sha256, dir: Assets, lines: seq<string>, i: nat)
    requires i < |lines| && Checked(sha, dir, lines[..i]).Ok?
    ensures var before := Checked(sha, dir, lines[..i]).value;
            match LineFault(sha, dir, lines[i], before)
            case Fault(e) => Checked(sha, dir, lines) == Err(e)
            case NoFault => Checked(sha, dir, lines[..i + 1]) == Ok(before + [lines[i][66..]])
  {
    hide NextAsset, LineFault, Checked;
    CheckedNext(sha, dir, lines, i);
    NextIs(sha, dir, lines[i], Checked(sha, dir, lines[..i]).value);
  }
}
