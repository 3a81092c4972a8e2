/** How scripts/prepare_release_evidence.py commits evidence to a release directory:
    link both files, check the manifest, replace it, and undo the links on failure.
    Any operation may raise, before it takes effect or after (an interrupt does so),
    and others may change the directory before each one. */
module EvidencePublication {
  import opened ReleaseManifest
  import opened ReleaseExtension

  /** Whether an operation raises, and then whether it had taken effect. */
  datatype Fault = Never | Before | After

  /** What happens around the k-th operation: what others do to the directory just
      before it, and whether it raises, while committing or while rolling back. */
  datatype Environment = Environment(
    meddle: (nat, Assets) -> Assets, fault: nat -> Fault, rollbackFault: nat -> Fault)

  ghost predicate Quiet(env: Environment) {
    forall k: nat, d :: env.meddle(k, d) == d
  }

  ghost predicate NoFault(env: Environment, from: nat, to: nat) {
    forall k: nat | from <= k < to :: env.fault(k).Never?
  }

  ghost predicate RollbackWorks(env: Environment) {
    forall k: nat :: env.rollbackFault(k).Never?
  }

  // --- Undoing one link -------------------------------------------------------

  datatype Removed = Nothing | Gone(node: Node)

  /** Where undoing one link ends: an error ends the whole rollback. */
  datatype Rolled = Rolled(dir: Assets, clock: nat, raised: bool, removed: Removed)

  predicate SameFile(dir: Assets, name: string, staged: Node) {
    name in dir && dir[name].file == staged.file
  }

  /** `regular_file`, `samefile` and `unlink`; a missing file is passed over. */
  function Undo(env: Environment, k: nat, dir: Assets, staged: Node, name: string): Rolled {
    var first := env.meddle(k, dir);
    if !env.rollbackFault(k).Never? then Rolled(first, k + 1, true, Nothing)
    else if !IsRegular(first, name) then Rolled(first, k + 1, false, Nothing)
    else
      var second := env.meddle(k + 1, first);
      if !env.rollbackFault(k + 1).Never? then Rolled(second, k + 2, true, Nothing)
      else if !SameFile(second, name, staged) then Rolled(second, k + 2, false, Nothing)
      else
        var third := env.meddle(k + 2, second);
        if env.rollbackFault(k + 2).Before? then Rolled(third, k + 3, true, Nothing)
        else if name !in third then Rolled(third, k + 3, env.rollbackFault(k + 2).After?, Nothing)
        else if third[name].Directory? then Rolled(third, k + 3, true, Nothing)
        else Rolled(third - {name}, k + 3, env.rollbackFault(k + 2).After?, Gone(third[name]))
  }

  /** What the name led to when it was compared with the staged file. */
  function Compared(env: Environment, k: nat, dir: Assets): Assets {
    env.meddle(k + 1, env.meddle(k, dir))
  }

  /** Rollback removes a name only after finding the linked file there; and what it
      removes is the linked file exactly when nobody put another file under that
      name between the comparison and the removal. */
  lemma UndoRemovesItsOwn(env: Environment, k: nat, dir: Assets, staged: Node, name: string)
    requires Undo(env, k, dir, staged, name).removed.Gone?
    ensures SameFile(Compared(env, k, dir), name, staged)
    ensures Undo(env, k, dir, staged, name).removed.node.file == staged.file <==>
            SameFile(env.meddle(k + 2, Compared(env, k, dir)), name, Compared(env, k, dir)[name])
  {}

  /** Undoing a link changes the directory in one way only: it takes away the one name, and
      only when a regular file was found under it first. A name that is missing, or leads
      to no regular file, or to another file, is passed over, and that is no failure. */
  lemma UndoChangesOneName(env: Environment, k: nat, dir: Assets, staged: Node, name: string)
    ensures var undone, first := Undo(env, k, dir, staged, name), env.meddle(k, dir);
            && (undone.removed.Gone? ==> IsRegular(first, name))
            && (undone.removed.Gone? ==>
                  var last := env.meddle(k + 2, Compared(env, k, dir));
                  name in last && undone.dir == last - {name} && undone.removed.node == last[name])
            && (undone.removed.Nothing? ==>
                  undone.dir == first || undone.dir == Compared(env, k, dir)
                  || undone.dir == env.meddle(k + 2, Compared(env, k, dir)))
            && (env.rollbackFault(k).Never? && !IsRegular(first, name) ==> !undone.raised && undone.dir == first)
            && (env.rollbackFault(k).Never? && IsRegular(first, name) && env.rollbackFault(k + 1).Never?
                && !SameFile(Compared(env, k, dir), name, staged) ==>
                  !undone.raised && undone.dir == Compared(env, k, dir))
  {}

  /** That gap is real: a stranger's file can be removed. */
  lemma UndoCanRemoveAStranger()
    ensures exists env, dir, staged, name ::
              var undone := Undo(env, 0, dir, staged, name);
              undone.removed.Gone? && undone.removed.node.Regular? && undone.removed.node.file != staged.file
  {
    var staged, stranger := Regular(0, Binary([])), Regular(1, Binary([]));
    var dir: Assets := map["a" := staged];
    var env := Environment((k, d) => if k == 2 then map["a" := stranger] else d, k => Never, k => Never);
    var undone := Undo(env, 0, dir, staged, "a");
    assert undone.removed == Gone(stranger);
  }

  // --- The links made so far ---------------------------------------------------

  type Links = seq<(Node, string)>

  function Linked(dir: Assets, links: Links): Assets {
    if links == [] then dir
    else
      var last := links[|links| - 1];
      Linked(dir, links[..|links| - 1])[last.1 := last.0]
  }

  /** New names, each once, for regular files. */
  ghost predicate Linkable(dir: Assets, links: Links) {
    && (forall i | 0 <= i < |links| :: links[i].1 !in dir && links[i].0.Regular?)
    && (forall i, j | 0 <= i < j < |links| :: links[i].1 != links[j].1)
  }

  lemma {:induction false} LinkedKeys(dir: Assets, links: Links, name: string)
    ensures name in Linked(dir, links) <==> name in dir || exists i | 0 <= i < |links| :: links[i].1 == name
    ensures (forall i | 0 <= i < |links| :: links[i].1 != name) && name in dir ==> Linked(dir, links)[name] == dir[name]
    decreases |links|
  {
    if links != [] {
      var k := |links| - 1;
      LinkedKeys(dir, links[..k], name);
      assert forall i | 0 <= i < k :: links[..k][i] == links[i];
      assert links[k].1 == name || name !in Linked(dir, links) || name in Linked(dir, links[..k]);
    }
  }

  lemma UndoneLink(dir: Assets, links: Links)
    requires links != [] && Linkable(dir, links)
    ensures var last := links[|links| - 1];
            && last.1 in Linked(dir, links) && Linked(dir, links)[last.1] == last.0
            && Linked(dir, links) - {last.1} == Linked(dir, links[..|links| - 1])
  {
    var k := |links| - 1;
    LinkedKeys(dir, links[..k], links[k].1);
    assert forall i | 0 <= i < k :: links[..k][i] == links[i];
  }

  /** A link or entry made under another name can be thought of as made first. */
  lemma {:induction false} LinkedLate(dir: Assets, links: Links, name: string, node: Node)
    requires forall i | 0 <= i < |links| :: links[i].1 != name
    ensures Linked(dir, links)[name := node] == Linked(dir[name := node], links)
    decreases |links|
  {
    if links != [] {
      var k := |links| - 1;
      LinkedLate(dir, links[..k], name, node);
    }
  }

  /** A directory that the links made, when nobody disturbs undoing them. */
  ghost predicate Undoing(env: Environment, base: Assets, links: Links, dir: Assets) {
    Quiet(env) && Linkable(base, links) && dir == Linked(base, links)
  }

  lemma UndoingStep(env: Environment, base: Assets, links: Links, dir: Assets, i: nat, k: nat)
    requires i < |links| && Undoing(env, base, links[..i + 1], dir)
    ensures var undone := Undo(env, k, dir, links[i].0, links[i].1);
            && (RollbackWorks(env) ==> !undone.raised)
            && (Undoing(env, base, links[..i], undone.dir)
                || (undone.raised && Undoing(env, base, links[..i + 1], undone.dir)))
  {
    var done := links[..i + 1];
    assert done[i] == links[i] && done[..i] == links[..i];
    UndoneLink(base, done);
    assert forall j | 0 <= j < i :: links[..i][j] == done[j];
    hide Linked;
  }

  /** The first of the links, over what was there before them. */
  ghost predicate PartlyUndone(base: Assets, links: Links, dir: Assets) {
    exists n: nat :: n <= |links| && dir == Linked(base, links[..n])
  }

  lemma UndoneSoFar(env: Environment, base: Assets, links: Links, dir: Assets, n: nat)
    requires n <= |links| && Undoing(env, base, links[..n], dir)
    ensures PartlyUndone(base, links, dir)
  {}

  lemma UndoneOfMore(base: Assets, some: Links, all: Links, dir: Assets)
    requires some <= all && PartlyUndone(base, some, dir)
    ensures PartlyUndone(base, all, dir)
  {
    var n: nat :| n <= |some| && dir == Linked(base, some[..n]);
    assert some[..n] == all[..n];
  }

  lemma LinkedTwo(dir: Assets, x: (Node, string), y: (Node, string))
    ensures Linked(dir, [x, y]) == dir[x.1 := x.0][y.1 := y.0]
    ensures x.0.Regular? && y.0.Regular? && x.1 != y.1 ==>
              (Linkable(dir, [x, y]) <==> x.1 !in dir && y.1 !in dir)
  {
    assert [x, y][..1] == [x] && [x][..0] == [];
    assert Linked(dir, [x]) == dir[x.1 := x.0];
    assert [x, y][0] == x && [x, y][1] == y;
  }

  // --- The commit ---------------------------------------------------------------

  /** What linking leaves, undisturbed, when the first `k` links were noted: those,
      and the next one if it raised after it was made. */
  function AfterLinks(env: Environment, clock: nat, dir: Assets, links: Links, k: nat): Assets
    requires k <= |links|
  {
    var linked := Linked(dir, links[..k]);
    if k < |links| && links[k].1 !in linked && env.fault(clock + k).After? then linked[links[k].1 := links[k].0] else linked
  }

  predicate ManifestIs(dir: Assets, expected: Content) {
    IsRegular(dir, ManifestName()) && dir[ManifestName()].content == expected
  }

  // --- The commit under interference ------------------------------------------

  datatype Commit = Stopped | Committed(dir: Assets)

  /** The first `n` links, made one after the other while others have their turns: each
      under a name that is free then. */
  function LinksMade(env: Environment, clock: nat, dir: Assets, links: Links, n: nat): Commit
    requires n <= |links|
  {
    if n == 0 then Committed(dir)
    else
      match LinksMade(env, clock, dir, links, n - 1)
      case Stopped => Stopped
      case Committed(before) =>
        var met, link := env.meddle(clock + n - 1, before), links[n - 1];
        if !env.fault(clock + n - 1).Never? || link.1 in met then Stopped else Committed(met[link.1 := link.0])
  }

  lemma LinksMadeNext(env: Environment, clock: nat, dir: Assets, links: Links, n: nat)
    requires n < |links| && LinksMade(env, clock, dir, links, n).Committed?
    ensures var met := env.meddle(clock + n, LinksMade(env, clock, dir, links, n).dir);
            LinksMade(env, clock, dir, links, n + 1) ==
            if !env.fault(clock + n).Never? || links[n].1 in met then Stopped else Committed(met[links[n].1 := links[n].0])
  {}

  lemma LinkedNext(dir: Assets, links: Links, n: nat)
    requires n < |links|
    ensures Linked(dir, links[..n + 1]) == Linked(dir, links[..n])[links[n].1 := links[n].0]
  {
    assert links[..n + 1][..n] == links[..n] && links[..n + 1][n] == links[n];
  }

  /** The first `n` links are made, and nothing raised. */
  ghost predicate LinkedSoFar(env: Environment, clock: nat, base: Assets, links: Links, n: nat, dir: Assets) {
    && n <= |links| && NoFault(env, clock, clock + n)
    && LinksMade(env, clock, base, links, n) == Committed(dir)
    && (Quiet(env) ==> dir == Linked(base, links[..n]) && forall k | 0 <= k < n :: links[k].1 !in base)
  }

  /** Linking stopped at link `n`, which raised or met a name that was taken. */
  ghost predicate LinkStopped(env: Environment, clock: nat, base: Assets, links: Links, n: nat, dir: Assets) {
    && n < |links| && NoFault(env, clock, clock + n)
    && LinksMade(env, clock, base, links, |links|) == Stopped
    && (Quiet(env) ==>
          && dir == AfterLinks(env, clock, base, links, n)
          && (forall k | 0 <= k < n :: links[k].1 !in base)
          && (links[n].1 in Linked(base, links[..n]) || !env.fault(clock + n).Never?))
  }

  lemma NothingLinked(env: Environment, clock: nat, base: Assets, links: Links)
    ensures LinkedSoFar(env, clock, base, links, 0, base)
  {}

  lemma LinkTried(env: Environment, clock: nat, base: Assets, links: Links, n: nat, before: Assets, dir: Assets)
    requires n < |links| && LinkedSoFar(env, clock, base, links, n, before)
    requires var met, fault := env.meddle(clock + n, before), env.fault(clock + n);
             dir == if fault.Before? || links[n].1 in met then met else met[links[n].1 := links[n].0]
    ensures if env.fault(clock + n).Never? && links[n].1 !in env.meddle(clock + n, before)
            then LinkedSoFar(env, clock, base, links, n + 1, dir) else LinkStopped(env, clock, base, links, n, dir)
  {
    LinksMadeNext(env, clock, base, links, n);
    LinkedNext(base, links, n);
    LinkedKeys(base, links[..n], links[n].1);
    hide Linked, LinksMade;
    if LinksMade(env, clock, base, links, n + 1).Stopped? { LinksStop(env, clock, base, links, n + 1, |links|); }
  }

  lemma {:induction false} LinksStop(env: Environment, clock: nat, dir: Assets, links: Links, k: nat, n: nat)
    requires k <= n <= |links| && LinksMade(env, clock, dir, links, k).Stopped?
    ensures LinksMade(env, clock, dir, links, n).Stopped?
  {
    if k < n { LinksStop(env, clock, dir, links, k, n - 1); }
  }

  /** The manifest replaced, whatever others do in their turns: it is a regular file,
      then has the text that was verified, then is replaced where there is no directory;
      and nothing raises. */
  ghost predicate Rewrites(
      env: Environment, c: nat, dir: Assets, checksums: Node, expected: Content, after: Assets) {
    var one := env.meddle(c, dir);
    var two := env.meddle(c + 1, one);
    var three := env.meddle(c + 2, two);
    && NoFault(env, c, c + 3)
    && IsRegular(one, ManifestName()) && ManifestIs(two, expected)
    && (ManifestName() in three ==> !three[ManifestName()].Directory?)
    && after == three[ManifestName() := checksums]
  }

  /** A commit to its end, whatever others do: both links under names that are free then,
      and the manifest replaced. */
  ghost predicate Commits(
      env: Environment, c: nat, dir: Assets, e: Evidence, checksums: Node, expected: Content, after: Assets) {
    var one := env.meddle(c, dir);
    var two := env.meddle(c + 1, one[e.archiveName := e.archive]);
    && NoFault(env, c, c + 2) && e.archiveName !in one && e.evidenceName !in two
    && Rewrites(env, c + 2, two[e.evidenceName := e.manifest], checksums, expected, after)
  }

  lemma BothLinksMade(env: Environment, c: nat, dir: Assets, e: Evidence)
    ensures var one := env.meddle(c, dir);
            var two := env.meddle(c + 1, one[e.archiveName := e.archive]);
            LinksMade(env, c, dir, BothLinks(e), 2) ==
            if NoFault(env, c, c + 2) && e.archiveName !in one && e.evidenceName !in two
            then Committed(two[e.evidenceName := e.manifest]) else Stopped
  {
    var links := BothLinks(e);
    assert LinksMade(env, c, dir, links, 0) == Committed(dir);
    assert LinksMade(env, c, dir, links, 1) ==
           if !env.fault(c).Never? || e.archiveName in env.meddle(c, dir) then Stopped
           else Committed(env.meddle(c, dir)[e.archiveName := e.archive]);
  }

  // --- Operations that raise too late ---------------------------------------------

  /** Which operation of an undisturbed commit raises after it took effect. */
  datatype Interruption = Uninterrupted | LateArchive | LateEvidence | LateReplace

  ghost function Interrupted(env: Environment, clock: nat, dir: Assets, e: Evidence, expected: Content): Interruption {
    if e.archiveName in dir || env.fault(clock).Before? then Uninterrupted
    else if env.fault(clock).After? then LateArchive
    else if e.evidenceName in dir || env.fault(clock + 1).Before? then Uninterrupted
    else if env.fault(clock + 1).After? then LateEvidence
    else if ManifestIs(dir, expected) && NoFault(env, clock + 2, clock + 4) && env.fault(clock + 4).After? then LateReplace
    else Uninterrupted
  }

  /** What a commit that fails so leaves once its noted links are undone. */
  function Leftover(i: Interruption, dir: Assets, e: Evidence, checksums: Node): Assets {
    match i
    case Uninterrupted => dir
    case LateArchive => dir[e.archiveName := e.archive]
    case LateEvidence => dir[e.evidenceName := e.manifest]
    case LateReplace => dir[ManifestName() := checksums]
  }

  function BothLinks(e: Evidence): Links {
    [(e.archive, e.archiveName), (e.manifest, e.evidenceName)]
  }

  ghost predicate Publishable(e: Evidence) {
    && e.archive.Regular? && e.manifest.Regular? && e.archiveName != e.evidenceName
    && e.archiveName != ManifestName() && e.evidenceName != ManifestName()
  }

  /** When linking fails, what is there is the noted links over what is left over. */
  lemma LinkFailed(env: Environment, c: nat, dir: Assets, e: Evidence, checksums: Node, expected: Content, k: nat)
    requires Publishable(e) && k < 2 && NoFault(env, c, c + k)
    requires forall i | 0 <= i < k :: BothLinks(e)[i].1 !in dir
    requires BothLinks(e)[k].1 in Linked(dir, BothLinks(e)[..k]) || !env.fault(c + k).Never?
    ensures var base := Leftover(Interrupted(env, c, dir, e, expected), dir, e, checksums);
            && AfterLinks(env, c, dir, BothLinks(e), k) == Linked(base, BothLinks(e)[..k])
            && Linkable(base, BothLinks(e)[..k])
  {
    var links := BothLinks(e);
    assert links[..0] == [] && links[..1] == [links[0]] && [links[0]][..0] == [];
    assert Linked(dir, [links[0]]) == dir[e.archiveName := e.archive];
    if k == 1 {
      assert links[0].1 == e.archiveName && e.archiveName !in dir && env.fault(c).Never?;
      var late := dir[e.evidenceName := e.manifest];
      assert Linked(late, [links[0]]) == late[e.archiveName := e.archive];
      assert late[e.archiveName := e.archive] == dir[e.archiveName := e.archive][e.evidenceName := e.manifest];
    }
  }

  /** When both links are made, only a replacement that raises too late leaves anything. */
  lemma BothLinked(env: Environment, c: nat, dir: Assets, e: Evidence, checksums: Node, expected: Content)
    requires Publishable(e) && NoFault(env, c, c + 2) && e.archiveName !in dir && e.evidenceName !in dir
    ensures Leftover(Interrupted(env, c, dir, e, expected), dir, e, checksums) ==
            if ManifestIs(dir, expected) && NoFault(env, c + 2, c + 4) && env.fault(c + 4).After?
            then dir[ManifestName() := checksums] else dir
    ensures Linked(dir[ManifestName() := checksums], BothLinks(e)) == Linked(dir, BothLinks(e))[ManifestName() := checksums]
    ensures ManifestIs(Linked(dir, BothLinks(e)), expected) == ManifestIs(dir, expected)
    ensures AfterLinks(env, c, dir, BothLinks(e), 2) == Linked(dir, BothLinks(e)) ==
            dir[e.archiveName := e.archive][e.evidenceName := e.manifest]
    ensures Linkable(dir, BothLinks(e)) && Linkable(dir[ManifestName() := checksums], BothLinks(e))
  {
    var links := BothLinks(e);
    LinkedTwo(dir, links[0], links[1]);
    LinkedTwo(dir[ManifestName() := checksums], links[0], links[1]);
    assert links[0].1 == e.archiveName && links[1].1 == e.evidenceName;
    LinkedLate(dir, links, ManifestName(), checksums);
    assert env.fault(c).Never? && env.fault(c + 1).Never?;
    assert links[..2] == links;
  }

  datatype LinkResult = LinkMade | NameTaken | LinkRaised

  datatype Removal = Removal(clock: nat, dir: Assets, staged: Node, name: string)

  /** What was removed is the file that had been linked. */
  ghost predicate RemovedOwn(env: Environment, r: Removal) {
    var undone := Undo(env, r.clock, r.dir, r.staged, r.name);
    undone.removed.Gone? && undone.removed.node.file == r.staged.file
  }

  /** Somebody re-bound the name between its comparison and its removal. */
  ghost predicate Rebound(env: Environment, r: Removal) {
    var before := Compared(env, r.clock, r.dir);
    r.name in before && !SameFile(env.meddle(r.clock + 2, before), r.name, before[r.name])
  }

  /** A removal that was justified: its comparison found the linked file; and it
      removed that file exactly when nobody re-bound the name in between. */
  ghost predicate Justified(env: Environment, r: Removal, links: Links) {
    && (r.staged, r.name) in links
    && Undo(env, r.clock, r.dir, r.staged, r.name).removed.Gone?
    && SameFile(Compared(env, r.clock, r.dir), r.name, r.staged)
    && (RemovedOwn(env, r) <==> !Rebound(env, r))
  }

  lemma RemovalIsJustified(env: Environment, k: nat, dir: Assets, links: Links, i: nat)
    requires i < |links|
    ensures Undo(env, k, dir, links[i].0, links[i].1).removed.Gone? ==>
              Justified(env, Removal(k, dir, links[i].0, links[i].1), links)
  {
    assert (links[i].0, links[i].1) == links[i];
    if Undo(env, k, dir, links[i].0, links[i].1).removed.Gone? {
      UndoRemovesItsOwn(env, k, dir, links[i].0, links[i].1);
    }
  }

  lemma JustifiedByMore(env: Environment, some: Links, all: Links)
    requires some <= all
    ensures forall r | Justified(env, r, some) :: Justified(env, r, all)
  {
    hide RemovedOwn, Rebound, Undo, Compared;
  }

  lemma UndoingEnds(env: Environment, base: Assets, links: Links, dir: Assets)
    ensures links == [] && Undoing(env, base, links, dir) ==> dir == base
  {}

  datatype Outcome = Published | RolledBack | RollbackFailed

  class Publication {
    const env: Environment
    var dir: Assets
    var clock: nat
    /** The removals rollback has made, each with the state it started from. */
    ghost var removals: seq<Removal>

    constructor (env: Environment, dir: Assets)
      ensures this.env == env && this.dir == dir && clock == 0 && removals == []
    {
      this.env, this.dir, this.clock, removals := env, dir, 0, [];
    }

    /** Others have their turn before every operation. */
    method Wait() returns (k: nat)
      modifies this`dir, this`clock
      ensures k == old(clock) && clock == k + 1 && dir == env.meddle(k, old(dir))
    {
      k := clock;
      dir := env.meddle(k, dir);
      clock := k + 1;
    }

    /** A hard link is made whole or not at all, and never over another file; a
        raise may come when it is already made. */
    method Link(staged: Node, name: string) returns (result: LinkResult)
      modifies this`dir, this`clock
      ensures clock == old(clock) + 1
      ensures var met := env.meddle(old(clock), old(dir));
              if env.fault(old(clock)).Before? then result == LinkRaised && dir == met
              else if name in met then result == NameTaken && dir == met
              else result == (if env.fault(old(clock)).After? then LinkRaised else LinkMade) && dir == met[name := staged]
    {
      var k := Wait();
      if env.fault(k).Before? {
        return LinkRaised;
      }
      if name in dir {
        return NameTaken;
      }
      dir := dir[name := staged];
      return if env.fault(k).After? then LinkRaised else LinkMade;
    }

    /** The manifest is still the regular file that was verified. */
    method ManifestUnchanged(expected: Content) returns (ok: bool)
      modifies this`dir, this`clock
      ensures var k := old(clock);
              var first := env.meddle(k, old(dir));
              var second := env.meddle(k + 1, first);
              if env.fault(k).Never? && IsRegular(first, ManifestName())
              then clock == k + 2 && dir == second && (ok <==> env.fault(k + 1).Never? && ManifestIs(second, expected))
              else clock == k + 1 && dir == first && !ok
    {
      var k := Wait();
      if !env.fault(k).Never? || !IsRegular(dir, ManifestName()) {
        return false;
      }
      k := Wait();
      if !env.fault(k).Never? || ManifestName() !in dir || !dir[ManifestName()].Regular? {
        return false;
      }
      return dir[ManifestName()].content == expected;
    }

    /** A rename over the manifest, whole or not at all; a raise may come when it is
        already done. */
    method Replace(staged: Node, name: string) returns (ok: bool)
      modifies this`dir, this`clock
      ensures var met := env.meddle(old(clock), old(dir));
              if env.fault(old(clock)).Before? || (name in met && met[name].Directory?) then !ok && dir == met
              else ok == env.fault(old(clock)).Never? && dir == met[name := staged]
    {
      var k := Wait();
      if env.fault(k).Before? || (name in dir && dir[name].Directory?) {
        return false;
      }
      dir := dir[name := staged];
      return env.fault(k).Never?;
    }

    /** The links in order, as far as they can be made without a raise. A link that
        raised after it was made is there too, but not among those committed. */
    method LinkAll(links: Links) returns (ok: bool, committed: Links)
      modifies this`dir, this`clock
      ensures |committed| <= |links| && committed == links[..|committed|]
      ensures if ok then committed == links && clock == old(clock) + |links|
                         && LinkedSoFar(env, old(clock), old(dir), links, |links|, dir)
              else LinkStopped(env, old(clock), old(dir), links, |committed|, dir)
    {
      hide LinkedSoFar, LinkStopped;
      committed := [];
      NothingLinked(env, clock, dir, links);
      for i := 0 to |links|
        invariant committed == links[..i] && clock == old(clock) + i
        invariant LinkedSoFar(env, old(clock), old(dir), links, i, dir)
      {
        ghost var before := dir;
        var result := Link(links[i].0, links[i].1);
        LinkTried(env, old(clock), old(dir), links, i, before, dir);
        if result != LinkMade {
          return false, committed;
        }
        assert links[..i + 1] == committed + [links[i]];
        committed := committed + [links[i]];
      }
      assert links[..|links|] == links;
      return true, committed;
    }

    /** The links undone, last first, until an undoing raises; undisturbed, the links that
        are left are the first of them. Whatever others do, only names that were linked
        are removed, each of them only when the comparison found the linked file under
        it; and everything removed is a linked file exactly when nobody re-binds a
        removed name between comparison and removal. */
    method Rollback(committed: Links, ghost base: Assets) returns (ok: bool)
      modifies this
      ensures Undoing(env, base, committed, old(dir)) ==>
                && (RollbackWorks(env) ==> ok) && (ok ==> dir == base) && PartlyUndone(base, committed, dir)
      ensures old(removals) <= removals
      ensures forall i | |old(removals)| <= i < |removals| :: Justified(env, removals[i], committed)
      ensures (forall i | |old(removals)| <= i < |removals| :: RemovedOwn(env, removals[i])) <==>
              (forall i | |old(removals)| <= i < |removals| :: !Rebound(env, removals[i]))
    {
      hide Undo, Undoing, RemovedOwn, Rebound, Compared, SameFile, PartlyUndone;
      var i := |committed|;
      assert committed[..i] == committed;
      while i > 0
        invariant 0 <= i <= |committed| && old(removals) <= removals
        invariant forall j | |old(removals)| <= j < |removals| :: Justified(env, removals[j], committed)
        invariant Undoing(env, base, committed, old(dir)) ==> Undoing(env, base, committed[..i], dir)
      {
        i := i - 1;
        if Undoing(env, base, committed, old(dir)) {
          UndoingStep(env, base, committed, dir, i, clock);
        }
        RemovalIsJustified(env, clock, dir, committed, i);
        var undone := UndoLink(committed[i].0, committed[i].1);
        if !undone {
          if Undoing(env, base, committed[..i], dir) { UndoneSoFar(env, base, committed, dir, i); }
          if Undoing(env, base, committed[..i + 1], dir) { UndoneSoFar(env, base, committed, dir, i + 1); }
          return false;
        }
      }
      UndoingEnds(env, base, committed[..0], dir);
      if Undoing(env, base, committed[..0], dir) { UndoneSoFar(env, base, committed, dir, 0); }
      return true;
    }

    /** One link undone, as `Undo` says. */
    method UndoLink(staged: Node, name: string) returns (ok: bool)
      modifies this
      ensures var undone := Undo(env, old(clock), old(dir), staged, name);
              && clock == undone.clock && dir == undone.dir && (ok <==> !undone.raised)
              && removals == old(removals)
                + if undone.removed.Gone? then [Removal(old(clock), old(dir), staged, name)] else []
    {
      var k := Wait();
      if !env.rollbackFault(k).Never? {
        return false;
      }
      if !IsRegular(dir, name) {
        return true;
      }
      k := Wait();
      if !env.rollbackFault(k).Never? {
        return false;
      }
      if name !in dir || dir[name].file != staged.file {
        return true;
      }
      k := Wait();
      if env.rollbackFault(k).Before? {
        return false;
      }
      if name !in dir {
        return env.rollbackFault(k).Never?;
      }
      if dir[name].Directory? {
        return false;
      }
      dir := dir - {name};
      removals := removals + [Removal(old(clock), old(dir), staged, name)];
      return env.rollbackFault(k).Never?;
    }

    /** The manifest checked and replaced. */
    method Rewrite(checksums: Node, expected: Content) returns (ok: bool)
      modifies this`dir, this`clock
      ensures if ok then Rewrites(env, old(clock), old(dir), checksums, expected, dir)
              else forall after :: !Rewrites(env, old(clock), old(dir), checksums, expected, after)
      ensures Quiet(env) ==>
                (ok <==> NoFault(env, old(clock), old(clock) + 3) && ManifestIs(old(dir), expected))
      ensures Quiet(env) ==>
                dir == if ManifestIs(old(dir), expected) && NoFault(env, old(clock), old(clock) + 2)
                          && !env.fault(old(clock) + 2).Before?
                       then old(dir)[ManifestName() := checksums] else old(dir)
    {
      ok := ManifestUnchanged(expected);
      if ok {
        ok := Replace(checksums, ManifestName());
      }
    }

    /** Both links, the manifest checked, and replaced. Whatever others do it comes to
        its end exactly when `Commits` says; undisturbed, when no operation raises,
        neither output is there and the manifest is the one that was verified; and what
        it leaves when it stops is the noted links over what an operation that raised
        too late did. */
    method Commit(e: Evidence, checksums: Node, expected: Content) returns (ok: bool, committed: Links)
      requires Publishable(e)
      modifies this`dir, this`clock
      ensures committed <= BothLinks(e)
      ensures if ok then Commits(env, old(clock), old(dir), e, checksums, expected, dir)
              else forall after :: !Commits(env, old(clock), old(dir), e, checksums, expected, after)
      ensures Quiet(env) ==>
                (ok <==>
                  && NoFault(env, old(clock), old(clock) + 5)
                  && e.archiveName !in old(dir) && e.evidenceName !in old(dir)
                  && ManifestIs(old(dir), expected))
      ensures Quiet(env) && ok ==>
                dir == old(dir)[e.archiveName := e.archive][e.evidenceName := e.manifest][ManifestName() := checksums]
      ensures var base := Leftover(Interrupted(env, old(clock), old(dir), e, expected), old(dir), e, checksums);
              Quiet(env) && !ok ==> Undoing(env, base, committed, dir)
    {
      hide Interrupted, Leftover, Linked, Linkable, AfterLinks, LinksMade, Rewrites;
      var links := BothLinks(e);
      BothLinksMade(env, clock, dir, e);
      assert links[..2] == links;
      ok, committed := LinkAll(links);
      if !ok {
        if Quiet(env) { LinkFailed(env, old(clock), old(dir), e, checksums, expected, |committed|); }
        return;
      }
      if Quiet(env) { BothLinked(env, old(clock), old(dir), e, checksums, expected); }
      ok := Rewrite(checksums, expected);
    }

    /** The commit, undone when it stops. Undisturbed the directory has all of it, or is
        as before but for what an operation did that raised too late, or, when undoing
        raises itself, for the first links besides. */
    method Publish(e: Evidence, checksums: Node, expected: Content) returns (outcome: Outcome)
      requires Publishable(e)
      modifies this
      ensures old(removals) <= removals
      ensures forall i | |old(removals)| <= i < |removals| ::
                Justified(env, removals[i], BothLinks(e))
      ensures (forall i | |old(removals)| <= i < |removals| :: RemovedOwn(env, removals[i])) <==>
              (forall i | |old(removals)| <= i < |removals| :: !Rebound(env, removals[i]))
      ensures outcome.Published? ==> removals == old(removals)
      ensures if outcome.Published? then Commits(env, old(clock), old(dir), e, checksums, expected, dir)
              else forall after :: !Commits(env, old(clock), old(dir), e, checksums, expected, after)
      ensures Quiet(env) ==>
                (outcome.Published? <==>
                  && NoFault(env, old(clock), old(clock) + 5)
                  && e.archiveName !in old(dir) && e.evidenceName !in old(dir)
                  && ManifestIs(old(dir), expected))
      ensures Quiet(env) && outcome.Published? ==>
                dir == old(dir)[e.archiveName := e.archive][e.evidenceName := e.manifest][ManifestName() := checksums]
      ensures var base := Leftover(Interrupted(env, old(clock), old(dir), e, expected), old(dir), e, checksums);
              Quiet(env) ==>
                && (outcome.RolledBack? ==> dir == base)
                && (outcome.RollbackFailed? ==> !RollbackWorks(env) && PartlyUndone(base, BothLinks(e), dir))
    {
      hide Interrupted, Leftover, Undoing, RemovedOwn, Rebound, Justified, Linked, Linkable, Commits, PartlyUndone,
           BothLinks;
      ghost var base := Leftover(Interrupted(env, clock, dir, e, expected), dir, e, checksums);
      var done, committed := Commit(e, checksums, expected);
      if done {
        return Published;
      }
      var undone := Rollback(committed, base);
      JustifiedByMore(env, committed, BothLinks(e));
      if PartlyUndone(base, committed, dir) { UndoneOfMore(base, committed, BothLinks(e), dir); }
      return if undone then RolledBack else RollbackFailed;
    }
  }

  // --- The whole preparation -----------------------------------------------------

  datatype Preparation =
    | Prepared(assetsChecksummed: nat) | ManifestRejected(error: ManifestError) | WouldOverwrite(name: string)
    | NotPublished(outcome: Outcome)

  /** The staged manifest differs from the one it replaces: it is longer. */
  lemma ManifestGrows(sha: Sha256, text: string, e: Evidence, file: nat, dir: Assets)
    requires e.archive.Regular? && e.manifest.Regular? && ManifestIs(dir, Utf8(text))
    ensures dir[ManifestName()] != Regular(file, Utf8(ExtendedText(sha, text, e)))
  {
    assert |ExtendedText(sha, text, e)| > |text|;
  }

  /** A replacement that raises too late leaves a manifest that names missing files:
      both links are undone, so the release is not verified any more. */
  lemma LateReplaceBreaksTheRelease(sha: Sha256, dir: Assets, text: string, names: seq<string>, e: Evidence, file: nat)
    requires IsVerified(sha, dir, text, names) && IsEvidence(e, dir)
    ensures VerifiedNames(sha, dir[ManifestName() := Regular(file, Utf8(ExtendedText(sha, text, e)))]) ==
            Err(AssetMissing(e.archiveName))
  {
    var longer := ExtendedText(sha, text, e);
    var after := dir[ManifestName() := Regular(file, Utf8(longer))];
    ListedNamesExist(sha, dir, text, names);
    ExtendedLines(sha, dir, text, names, e);
    var was, lines := Lines(text), Lines(longer);
    assert lines[..|was|] == was && lines[|was|] == Line(ArchiveEntry(sha, e));
    forall i | 0 <= i < |was| ensures Attests(sha, after, was[i]) {
      AttestedAfter(sha, dir, was[i], after);
    }
    CheckedExactly(sha, after, was);
    NextIsMissing(sha, after, e, names);
    CheckedNext(sha, after, lines, |was|);
    hide Lines, Checked, NextAsset, ExtendedText, Names, Attests;
  }

  lemma AttestedAfter(sha: Sha256, dir: Assets, line: string, after: Assets)
    requires Attests(sha, dir, line)
    requires forall n | n in dir && n != ManifestName() :: n in after && after[n] == dir[n]
    ensures Attests(sha, after, line)
  {
    hide IsEntry, EntryOf;
  }

  lemma NextIsMissing(sha: Sha256, dir: Assets, e: Evidence, names: seq<string>)
    requires e.archive.Regular? && IsSafeName(e.archiveName) && e.archiveName !in names && e.archiveName !in dir
    ensures NextAsset(sha, dir, Line(ArchiveEntry(sha, e)), names) == Err(AssetMissing(e.archiveName))
  {
    hide IsSafeName;
    NameIsNotEmpty(e.archiveName);
    EntryRoundTrip(sha(e.archive.content), e.archiveName);
  }

  lemma LeftoverDiffers(i: Interruption, dir: Assets, e: Evidence, checksums: Node)
    requires i != Uninterrupted && e.archiveName !in dir && e.evidenceName !in dir
    requires ManifestName() in dir && dir[ManifestName()] != checksums
    ensures Leftover(i, dir, e, checksums) != dir
  {
    var after := Leftover(i, dir, e, checksums);
    match i
    case LateArchive => assert e.archiveName in after;
    case LateEvidence => assert e.evidenceName in after;
    case LateReplace => assert after[ManifestName()] == checksums;
  }

  /** The evidence of a release, with the files it is staged in. */
  function EvidenceOf(tag: string, archive: Content, manifest: Content, archiveFile: nat, manifestFile: nat): Evidence {
    Evidence(ArchiveName(tag), Regular(archiveFile, archive), EvidenceName(tag), Regular(manifestFile, manifest))
  }

  /** A verified release without either output, whose undisturbed preparation raises
      too late at the operation named. */
  ghost function TooLate(env: Environment, sha: Sha256, dir: Assets, e: Evidence): Interruption {
    if VerifiedNames(sha, dir).Ok? && e.archiveName !in dir && e.evidenceName !in dir
    then Interrupted(env, 0, dir, e, dir[ManifestName()].content) else Uninterrupted
  }

  /** From the verified manifest to the published evidence. Undisturbed, it prepares
      exactly the verified releases that have neither output, when no operation
      raises; the release is then verified again, with the two outputs added to its
      names and nothing else changed. Otherwise it leaves the directory as it was,
      exactly when no link and no replacement raises after it took effect; and after
      a replacement that does, the release is not verified any more. */
  method PrepareEvidence(
      env: Environment, sha: Sha256, dir: Assets, tag: string,
      archive: Content, manifest: Content, archiveFile: nat, manifestFile: nat, checksumsFile: nat)
    returns (result: Preparation, after: Assets)
    requires IsTag(tag)
    ensures Quiet(env) && RollbackWorks(env) ==>
              (result.Prepared? <==>
                && VerifiedNames(sha, dir).Ok? && ArchiveName(tag) !in dir && EvidenceName(tag) !in dir
                && NoFault(env, 0, 5))
    ensures var e := EvidenceOf(tag, archive, manifest, archiveFile, manifestFile);
            Quiet(env) && RollbackWorks(env) ==>
              (result.Prepared? || after == dir <==> TooLate(env, sha, dir, e) == Uninterrupted)
              && (TooLate(env, sha, dir, e) == LateReplace ==> VerifiedNames(sha, after) == Err(AssetMissing(e.archiveName)))
    ensures Quiet(env) && RollbackWorks(env) && result.Prepared? ==>
              var names := VerifiedNames(sha, dir).value;
              var text := dir[ManifestName()].content.text;
              var e := EvidenceOf(tag, archive, manifest, archiveFile, manifestFile);
              && after == Extended(sha, dir, text, e, checksumsFile)
              && IsVerified(sha, after, ExtendedText(sha, text, e), names + [ArchiveName(tag), EvidenceName(tag)])
              && result.assetsChecksummed == |names| + 2
  {
    hide ExtendedText, ArchiveName, EvidenceName, IsSafeName, NoFault, Quiet, RollbackWorks, Interrupted, Leftover,
         Justified, RemovedOwn, Rebound, IsTag;
    var verified := VerifiedReleaseChecksums(sha, dir);
    if verified.Err? {
      return ManifestRejected(verified.error), dir;
    }
    if ArchiveName(tag) in dir {
      return WouldOverwrite(ArchiveName(tag)), dir;
    }
    if EvidenceName(tag) in dir {
      return WouldOverwrite(EvidenceName(tag)), dir;
    }
    OutputNamesAreSafe(tag);
    SafeIsNotManifest(ArchiveName(tag));
    SafeIsNotManifest(EvidenceName(tag));
    var e := EvidenceOf(tag, archive, manifest, archiveFile, manifestFile);
    var text := verified.value.0;
    var staged := Regular(checksumsFile, Utf8(ExtendedText(sha, text, e)));
    PreparationFacts(env, sha, dir, e, text, VerifiedNames(sha, dir).value, checksumsFile);
    var publication := new Publication(env, dir);
    var outcome := publication.Publish(e, staged, Utf8(text));
    if outcome != Published {
      return NotPublished(outcome), publication.dir;
    }
    return Prepared(verified.value.1 + 2), publication.dir;
  }

  /** What the two possible ends of a publication mean for the release. */
  lemma PreparationFacts(
      env: Environment, sha: Sha256, dir: Assets, e: Evidence, text: string, names: seq<string>, file: nat)
    requires IsVerified(sha, dir, text, names) && IsEvidence(e, dir)
    ensures var staged := Regular(file, Utf8(ExtendedText(sha, text, e)));
            var i := Interrupted(env, 0, dir, e, Utf8(text));
            && IsVerified(sha, Extended(sha, dir, text, e, file), ExtendedText(sha, text, e),
                          names + [e.archiveName, e.evidenceName])
            && (Leftover(i, dir, e, staged) == dir <==> i == Uninterrupted)
            && (i == LateReplace ==>
                  VerifiedNames(sha, Leftover(i, dir, e, staged)) == Err(AssetMissing(e.archiveName)))
            && (NoFault(env, 0, 5) ==> i == Uninterrupted)
  {
    hide ExtendedText, VerifiedNames, IsSafeName;
    var i := Interrupted(env, 0, dir, e, Utf8(text));
    ExtendedIsVerified(sha, dir, text, names, e, file);
    ManifestGrows(sha, text, e, file, dir);
    LateReplaceBreaksTheRelease(sha, dir, text, names, e, file);
    if i != Uninterrupted {
      LeftoverDiffers(i, dir, e, Regular(file, Utf8(ExtendedText(sha, text, e))));
    }
  }
}
