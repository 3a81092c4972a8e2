/** SHA256SUMS as scripts/prepare_release_evidence.py verifies and extends it, and
    as scripts/check_release_assets.py reads it back. */
module ReleaseManifest {

  /** A file's bytes. Bytes that are valid UTF-8 are their text; decoding is exact. */
  datatype Content = Utf8(text: string) | Binary(bytes: seq<int>)

  predicate IsLowerHex(c: char) {
    '0' <= c <= '9' || 'a' <= c <= 'f'
  }

  type Digest = d: string | |d| == 64 && forall c <- d :: IsLowerHex(c) witness seq(64, _ => '0')

  /** The hexadecimal digest of a file; nothing is assumed about collisions. */
  type Sha256 = Content -> Digest

  /** What a name in the directory leads to; `file` identifies what it resolves to. */
  datatype Node = Regular(file: nat, content: Content) | Symlink(file: nat) | Directory(file: nat)

  type Assets = map<string, Node>

  datatype ManifestError =
    | Missing | Unsafe | InvalidEntry | UnsafeName(name: string) | Duplicate
    | AssetMissing(name: string) | Mismatch(name: string)

  datatype Result<T> = Ok(value: T) | Err(error: ManifestError)

  function ManifestName(): string { "SHA256SUMS" }

  // --- Lines ---------------------------------------------------------------

  /** The characters at which `str.splitlines` breaks. */
  predicate IsBreak(c: char) {
    || '\n' <= c <= '\r' || '\U{1C}' <= c <= '\U{1E}'
    || c == '\U{85}' || c == '\U{2028}' || c == '\U{2029}'
  }

  /** The next break at or after `i`, or the end. */
  function NextBreak(t: string, i: nat): (j: nat)
    requires i <= |t|
    ensures i <= j <= |t| && (j < |t| ==> IsBreak(t[j]))
    ensures forall k | i <= k < j :: !IsBreak(t[k])
    decreases |t| - i
  {
    if i == |t| || IsBreak(t[i]) then i else NextBreak(t, i + 1)
  }

  /** Where the line after the break at `j` starts; `\r\n` is one break. */
  function AfterBreak(t: string, j: nat): (k: nat)
    requires j < |t|
    ensures j < k <= |t|
  {
    if t[j] == '\r' && j + 1 < |t| && t[j + 1] == '\n' then j + 2 else j + 1
  }

  /** `str.splitlines`: no last empty line when the text ends in a break. */
  function Lines(t: string): seq<string>
    decreases |t|
  {
    if t == "" then []
    else
      var j := NextBreak(t, 0);
      if j == |t| then [t] else [t[..j]] + Lines(t[AfterBreak(t, j)..])
  }

  predicate EndsInNewline(t: string) {
    t != "" && t[|t| - 1] == '\n'
  }

  lemma NextBreakIs(t: string, i: nat, j: nat)
    requires i <= j <= |t| && (j < |t| ==> IsBreak(t[j])) && forall k | i <= k < j :: !IsBreak(t[k])
    ensures NextBreak(t, i) == j
  {}

  lemma LinesStep(t: string, j: nat)
    requires j < |t| && IsBreak(t[j]) && forall k | 0 <= k < j :: !IsBreak(t[k])
    ensures Lines(t) == [t[..j]] + Lines(t[AfterBreak(t, j)..])
  {
    NextBreakIs(t, 0, j);
  }

  /** Appending a line to a text that ends in a newline appends it to the lines. */
  lemma {:induction false} LinesAppend(t: string, line: string)
    requires t == "" || EndsInNewline(t)
    requires line != "" && forall c <- line :: !IsBreak(c)
    ensures Lines(t + (line + "\n")) == Lines(t) + [line]
    decreases |t|
  {
    var more := line + "\n";
    if t == "" {
      assert t + more == more;
      LinesStep(more, |line|);
      assert more[..|line|] == line && more[|line| + 1..] == "";
    } else {
      var j := NextBreak(t, 0);
      var k := AfterBreak(t, j);
      LinesAppend(t[k..], line);
      LinesStep(t, j);
      AppendAfter(t, more, j);
      LinesStep(t + more, j);
      assert [t[..j]] + Lines(t[k..]) + [line] == [t[..j]] + (Lines(t[k..]) + [line]);
    }
  }

  lemma AppendAfter(t: string, more: string, j: nat)
    requires j < |t| && EndsInNewline(t)
    ensures AfterBreak(t + more, j) == AfterBreak(t, j)
    ensures (t + more)[..j] == t[..j] && (t + more)[j] == t[j]
    ensures (t + more)[AfterBreak(t, j)..] == t[AfterBreak(t, j)..] + more
  {}

  /** Universal newlines, as `read_text` applies them. */
  function Translate(t: string): string {
    if t == "" then ""
    else if t[0] != '\r' then [t[0]] + Translate(t[1..])
    else if |t| > 1 && t[1] == '\n' then "\n" + Translate(t[2..])
    else "\n" + Translate(t[1..])
  }

  lemma {:induction false} TranslatePlain(t: string, j: nat)
    requires j <= |t| && forall k | 0 <= k < j :: t[k] != '\r'
    ensures Translate(t) == t[..j] + Translate(t[j..])
    decreases j
  {
    if j == 0 {
      assert t[..0] == "" && t[0..] == t;
    } else {
      TranslatePlain(t[1..], j - 1);
      assert t[1..][j - 1..] == t[j..] && t[..j] == [t[0]] + t[1..][..j - 1];
    }
  }

  /** Translating newlines moves no line boundary. */
  lemma {:induction false} TranslateKeepsLines(t: string)
    ensures Lines(Translate(t)) == Lines(t)
    decreases |t|
  {
    if t != "" {
      var j := NextBreak(t, 0);
      TranslatePlain(t, j);
      if j == |t| {
        assert t[j..] == "" && t[..j] + "" == t;
      } else {
        var k := AfterBreak(t, j);
        TranslateKeepsLines(t[k..]);
        var line, rest := t[..j], Translate(t[k..]);
        var mark := if t[j] == '\r' then '\n' else t[j];
        TranslateAtBreak(t, j);
        assert Translate(t) == line + [mark] + rest;
        NextBreakIs(Translate(t), 0, j);
        assert Translate(t)[..j] == line && Translate(t)[j + 1..] == rest;
      }
    }
  }

  lemma TranslateAtBreak(t: string, j: nat)
    requires j < |t| && IsBreak(t[j])
    ensures Translate(t[j..]) == [if t[j] == '\r' then '\n' else t[j]] + Translate(t[AfterBreak(t, j)..])
  {
    var u := t[j..];
    assert u[1..] == t[j + 1..];
    if |u| > 1 {
      assert u[2..] == t[j + 2..];
    }
  }

  lemma {:induction false} TranslateEnd(t: string)
    ensures EndsInNewline(Translate(t)) <==> t != "" && (t[|t| - 1] == '\n' || t[|t| - 1] == '\r')
    decreases |t|
  {
    if t != "" {
      var k := if t[0] == '\r' && |t| > 1 && t[1] == '\n' then 2 else 1;
      TranslateEnd(t[k..]);
      if k < |t| {
        assert t[k..][|t[k..]| - 1] == t[|t| - 1];
        assert Translate(t)[1..] == Translate(t[k..]) && Translate(t[k..]) != "";
      }
    }
  }

  // --- Entries --------------------------------------------------------------

  datatype Entry = Entry(digest: string, name: string)

  function Line(e: Entry): string {
    e.digest + "  " + e.name
  }

  predicate IsNameChar(c: char) {
    IsNameStart(c) || c == '.' || c == '_' || c == '-'
  }

  predicate IsNameStart(c: char) {
    '0' <= c <= '9' || 'A' <= c <= 'Z' || 'a' <= c <= 'z'
  }

  predicate IsAssetName(name: string) {
    name != "" && IsNameStart(name[0]) && forall c <- name :: IsNameChar(c)
  }

  /** A plain name other than the manifest's own; plain names hold no separator. */
  predicate IsSafeName(name: string) {
    IsAssetName(name) && name != ManifestName()
  }

  /** Sixty-four lower-case hexadecimal digits, two spaces and a name. */
  predicate IsEntry(line: string) {
    && |line| > 66 && line[64..66] == "  "
    && forall i | 0 <= i < 64 :: IsLowerHex(line[i])
  }

  function EntryOf(line: string): (e: Entry)
    requires IsEntry(line)
    ensures Line(e) == line && |e.digest| == 64 && e.name != ""
  {
    assert line == line[..64] + line[64..66] + line[66..];
    Entry(line[..64], line[66..])
  }

  lemma EntryRoundTrip(digest: Digest, name: string)
    requires name != ""
    ensures IsEntry(Line(Entry(digest, name))) && EntryOf(Line(Entry(digest, name))) == Entry(digest, name)
  {
    var line := digest + "  " + name;
    assert line[..64] == digest && line[64..66] == "  " && line[66..] == name;
  }

  // --- Reading the names ----------------------------------------------------

  /** The name a line adds to those seen before it. */
  function NextName(line: string, seen: seq<string>): Result<string> {
    if !IsEntry(line) then Err(InvalidEntry)
    else
      var name := EntryOf(line).name;
      if !IsSafeName(name) then Err(UnsafeName(name))
      else if name in seen then Err(Duplicate)
      else Ok(name)
  }

  /** The names of a list of lines, or its first fault. */
  function Names(lines: seq<string>): (r: Result<seq<string>>)
    ensures r.Ok? ==> |r.value| == |lines|
    decreases |lines|
  {
    if lines == [] then Ok([])
    else
      var k := |lines| - 1;
      match Names(lines[..k])
      case Err(e) => Err(e)
      case Ok(names) =>
        match NextName(lines[k], names)
        case Err(e) => Err(e)
        case Ok(name) => Ok(names + [name])
  }

  ghost predicate Distinct(names: seq<string>) {
    forall i, j | 0 <= i < j < |names| :: names[i] != names[j]
  }

  /** What is accepted: entries only, of distinct safe names. */
  lemma {:induction false} NamesExactly(lines: seq<string>)
    ensures Names(lines).Ok? <==>
            && (forall i | 0 <= i < |lines| :: IsEntry(lines[i]) && IsSafeName(EntryOf(lines[i]).name))
            && (forall i, j | 0 <= i < j < |lines| :: EntryOf(lines[i]).name != EntryOf(lines[j]).name)
    ensures Names(lines).Ok? ==>
            var names := Names(lines).value;
            Distinct(names) && forall i | 0 <= i < |lines| :: IsEntry(lines[i]) && names[i] == EntryOf(lines[i]).name
    decreases |lines|
  {
    hide IsEntry, EntryOf, IsSafeName;
    if lines != [] {
      var k := |lines| - 1;
      NamesExactly(lines[..k]);
      assert forall i | 0 <= i < k :: lines[..k][i] == lines[i];
    }
  }

  function ToSet(names: seq<string>): set<string> {
    set n | n in names
  }

  /** The names of a manifest's text as the asset check reads it. */
  function ChecksumNames(content: Content): Result<seq<string>> {
    match content
    case Binary(_) => Err(InvalidEntry)
    case Utf8(raw) =>
      var text := Translate(raw);
      if !EndsInNewline(text) then Err(InvalidEntry) else Names(Lines(text))
  }

  method ChecksumAssetNames(content: Content) returns (result: Result<set<string>>)
    ensures match ChecksumNames(content)
            case Err(e) => result == Err(e)
            case Ok(names) => result == Ok(ToSet(names)) && |result.value| == |names|
  {
    hide NextName, Lines, Translate;
    if content.Binary? {
      return Err(InvalidEntry);
    }
    var text := Translate(content.text);
    if text == "" || text[|text| - 1] != '\n' {
      return Err(InvalidEntry);
    }
    var lines := Lines(text);
    var names: set<string> := {};
    ghost var listed: seq<string> := [];
    for i := 0 to |lines|
      invariant Names(lines[..i]) == Ok(listed) && names == ToSet(listed) && |names| == |listed|
    {
      NamesNext(lines, i);
      var name := NameToAdd(lines[i], names, listed);
      if name.Err? {
        return Err(name.error);
      }
      names := names + {name.value};
      listed := listed + [name.value];
    }
    assert lines[..|lines|] == lines;
    return Ok(names);
  }

  /** A fault anywhere is the fault of the whole list. */
  lemma {:induction false} NamesNext(lines: seq<string>, i: nat)
    requires i < |lines| && Names(lines[..i]).Ok?
    ensures var next := NextName(lines[i], Names(lines[..i]).value);
            && (next.Err? ==> Names(lines) == Err(next.error))
            && (next.Ok? ==> Names(lines[..i + 1]) == Ok(Names(lines[..i]).value + [next.value]))
            && (next.Ok? ==> next.value !in Names(lines[..i]).value)
    decreases |lines|
  {
    hide IsEntry, IsSafeName;
    assert lines[..i + 1][..i] == lines[..i];
    if i + 1 < |lines| {
      var k := |lines| - 1;
      assert lines[..k][..i] == lines[..i];
      NamesNext(lines[..k], i);
    } else {
      assert lines[..i + 1] == lines;
    }
  }

  /** The checks both readers make on one line, against the names already kept. */
  method NameToAdd(line: string, names: set<string>, ghost seen: seq<string>) returns (result: Result<string>)
    requires names == ToSet(seen)
    ensures result == NextName(line, seen)
    ensures result.Ok? ==> IsEntry(line) && result.value == EntryOf(line).name && result.value !in seen
  {
    if !IsEntry(line) {
      return Err(InvalidEntry);
    }
    var name := EntryOf(line).name;
    if name == ManifestName() || !IsAssetName(name) {
      return Err(UnsafeName(name));
    }
    if name in names {
      return Err(Duplicate);
    }
    return Ok(name);
  }

  // --- Verifying the assets -------------------------------------------------

  predicate IsRegular(dir: Assets, name: string) {
    name in dir && dir[name].Regular?
  }

  /** One line checked against the directory, after its name. */
  function NextAsset(sha: Sha256, dir: Assets, line: string, seen: seq<string>): Result<string> {
    match NextName(line, seen)
    case Err(e) => Err(e)
    case Ok(name) =>
      if !IsRegular(dir, name) then Err(AssetMissing(name))
      else if sha(dir[name].content) != EntryOf(line).digest then Err(Mismatch(name))
      else Ok(name)
  }

  function Checked(sha: Sha256, dir: Assets, lines: seq<string>): (r: Result<seq<string>>)
    decreases |lines|
  {
    if lines == [] then Ok([])
    else
      var k := |lines| - 1;
      match Checked(sha, dir, lines[..k])
      case Err(e) => Err(e)
      case Ok(names) =>
        match NextAsset(sha, dir, lines[k], names)
        case Err(e) => Err(e)
        case Ok(name) => Ok(names + [name])
  }

  function VerifiedNames(sha: Sha256, dir: Assets): Result<seq<string>> {
    if ManifestName() !in dir then Err(Missing)
    else
      match dir[ManifestName()]
      case Symlink(_) => Err(Unsafe)
      case Directory(_) => Err(Unsafe)
      case Regular(_, content) =>
        if content.Binary? || !EndsInNewline(content.text) then Err(InvalidEntry)
        else Checked(sha, dir, Lines(content.text))
  }

  /** A line whose asset is a regular file of that digest. */
  predicate Attests(sha: Sha256, dir: Assets, line: string) {
    && IsEntry(line)
    && var e := EntryOf(line);
       IsSafeName(e.name) && IsRegular(dir, e.name) && sha(dir[e.name].content) == e.digest
  }

  /** Checking accepts exactly the lists of names whose every line is attested, and
      the names are then those the other reader finds. */
  lemma {:induction false} CheckedExactly(sha: Sha256, dir: Assets, lines: seq<string>)
    ensures Checked(sha, dir, lines).Ok? <==>
            Names(lines).Ok? && forall i | 0 <= i < |lines| :: Attests(sha, dir, lines[i])
    ensures Checked(sha, dir, lines).Ok? ==> Checked(sha, dir, lines) == Names(lines)
    decreases |lines|
  {
    hide IsEntry, EntryOf, IsSafeName, IsRegular;
    if lines != [] {
      var k := |lines| - 1;
      CheckedExactly(sha, dir, lines[..k]);
      assert forall i | 0 <= i < k :: lines[..k][i] == lines[i];
    }
  }

  lemma {:induction false} CheckedNext(sha: Sha256, dir: Assets, lines: seq<string>, i: nat)
    requires i < |lines| && Checked(sha, dir, lines[..i]).Ok?
    ensures var next := NextAsset(sha, dir, lines[i], Checked(sha, dir, lines[..i]).value);
            && (next.Err? ==> Checked(sha, dir, lines) == Err(next.error))
            && (next.Ok? ==> Checked(sha, dir, lines[..i + 1]) == Ok(Checked(sha, dir, lines[..i]).value + [next.value]))
    decreases |lines|
  {
    hide NextAsset;
    assert lines[..i + 1][..i] == lines[..i];
    if i + 1 < |lines| {
      var k := |lines| - 1;
      assert lines[..k][..i] == lines[..i];
      CheckedNext(sha, dir, lines[..k], i);
    } else {
      assert lines[..i + 1] == lines;
    }
  }

  method VerifiedReleaseChecksums(sha: Sha256, dir: Assets) returns (result: Result<(string, nat)>)
    ensures match VerifiedNames(sha, dir)
            case Err(e) => result == Err(e)
            case Ok(names) => result == Ok((dir[ManifestName()].content.text, |names|))
  {
    hide NextName, Lines;
    if ManifestName() !in dir {
      return Err(Missing);
    }
    if !IsRegular(dir, ManifestName()) {
      return Err(Unsafe);
    }
    var content := dir[ManifestName()].content;
    if content.Binary? || content.text == "" || content.text[|content.text| - 1] != '\n' {
      return Err(InvalidEntry);
    }
    var lines := Lines(content.text);
    var names: set<string> := {};
    ghost var listed: seq<string> := [];
    for i := 0 to |lines|
      invariant Checked(sha, dir, lines[..i]) == Ok(listed) && names == ToSet(listed) && |names| == |listed|
    {
      CheckedNext(sha, dir, lines, i);
      var name := NameToAdd(lines[i], names, listed);
      if name.Err? {
        return Err(name.error);
      }
      if !IsRegular(dir, name.value) {
        return Err(AssetMissing(name.value));
      }
      if sha(dir[name.value].content) != EntryOf(lines[i]).digest {
        return Err(Mismatch(name.value));
      }
      names := names + {name.value};
      listed := listed + [name.value];
    }
    assert lines[..|lines|] == lines;
    return Ok((content.text, |names|));
  }
}
