/** The fixture terminal probe of scripts/local_provider_matrix_cases.py.

    `TuiScreen` is fed decoded characters in arbitrary chunks and keeps the
    unfinished tail of an escape sequence in `pending`.  Its meaning is given by
    a character-at-a-time automaton (`Step`, `Run`): the class re-scans
    `pending + chunk` with a control-sequence matcher and is proved to end where
    the automaton ends.  Everything about chunk boundaries is then a fact about
    the automaton. */
module TuiScreens {

  const ESC: char := '\U{1B}'
  const DEL: char := '\U{7F}'
  const ROWS := 40
  const COLUMNS := 120
  const MAX_UNFINISHED := 262144

  // --- Control sequences (section 5.4 of ECMA-48) -------------------------

  predicate IsParameter(c: char) { '0' <= c <= '?' }

  predicate IsIntermediate(c: char) { ' ' <= c <= '/' }

  predicate IsFinal(c: char) { '@' <= c <= '~' }

  /** An unfinished control sequence: nothing, a lone escape, or an escape and
      bracket followed by parameter characters and then intermediate ones. */
  predicate IsPartial(t: string) {
    || t == []
    || t == [ESC]
    || (&& |t| >= 2 && t[0] == ESC && t[1] == '['
        && (forall i | 2 <= i < |t| :: IsParameter(t[i]) || IsIntermediate(t[i]))
        && (forall i | 3 <= i < |t| && IsParameter(t[i]) :: IsParameter(t[i - 1])))
  }

  /** A complete control sequence opens `s` and its final character is `s[k]`. */
  predicate IsCommand(s: string, k: int) {
    2 <= k < |s| && IsPartial(s[..k]) && IsFinal(s[k])
  }

  function LeadingParameters(u: string): (p: string)
    ensures p <= u
    ensures forall c | c in p :: IsParameter(c)
    ensures |p| < |u| ==> !IsParameter(u[|p|])
  {
    if u == [] || !IsParameter(u[0]) then [] else [u[0]] + LeadingParameters(u[1..])
  }

  function Fields(params: string): (fs: seq<string>)
    ensures |fs| >= 1
  {
    if params == [] then [[]]
    else
      var rest := Fields(params[1..]);
      if params[0] == ';' then [[]] + rest else [[params[0]] + rest[0]] + rest[1..]
  }

  function Glued(fields: seq<string>): string
    requires fields != []
  {
    if |fields| == 1 then fields[0] else fields[0] + [';'] + Glued(fields[1..])
  }

  /** `Fields` is the split at semicolons: the fields hold none and glue back. */
  lemma {:induction false} FieldsAreTheSplit(params: string)
    ensures forall i | 0 <= i < |Fields(params)| :: ';' !in Fields(params)[i]
    ensures Glued(Fields(params)) == params
  {
    if params != [] {
      FieldsAreTheSplit(params[1..]);
      var rest := Fields(params[1..]);
      if params[0] == ';' {
        assert Fields(params)[1..] == rest;
        assert Glued(Fields(params)) == [';'] + params[1..];
      } else {
        assert Fields(params)[1..] == rest[1..];
        assert Glued(Fields(params)) == [params[0]] + Glued(rest);
      }
    }
  }

  predicate AllDigits(field: string) {
    forall i | 0 <= i < |field| :: '0' <= field[i] <= '9'
  }

  function Number(field: string): nat
    requires AllDigits(field)
  {
    if field == [] then 0
    else Number(field[..|field| - 1]) * 10 + (field[|field| - 1] - '0') as int
  }

  function Value(field: string): nat {
    if field != [] && AllDigits(field) then Number(field) else 0
  }

  function Values(params: string): (vs: seq<nat>)
    ensures |vs| >= 1
  {
    var fs := Fields(params);
    seq(|fs|, i requires 0 <= i < |fs| => Value(fs[i]))
  }

  function OrOne(n: nat): (d: nat)
    ensures d >= 1
  {
    if n == 0 then 1 else n
  }

  // --- The screen ---------------------------------------------------------

  datatype Screen = Screen(cells: seq<seq<char>>, row: int, column: int)

  function Blanks(n: nat): (b: seq<char>)
    ensures |b| == n && forall i | 0 <= i < n :: b[i] == ' '
  {
    seq(n, _ => ' ')
  }

  function BlankCells(): (cells: seq<seq<char>>)
    ensures |cells| == ROWS && forall r | 0 <= r < ROWS :: cells[r] == Blanks(COLUMNS)
  {
    seq(ROWS, _ => Blanks(COLUMNS))
  }

  ghost predicate WellFormed(s: Screen) {
    && |s.cells| == ROWS
    && (forall r | 0 <= r < ROWS :: |s.cells[r]| >= COLUMNS)
    && s.row >= 0 && s.column >= 0
  }

  ghost predicate ExactWidth(s: Screen) {
    forall r | 0 <= r < |s.cells| :: |s.cells[r]| == COLUMNS
  }

  function Clamp(low: int, high: int, x: int): (y: int)
    requires low <= high
    ensures low <= y <= high
    ensures low <= x <= high ==> y == x
  {
    if x < low then low else if x > high then high else x
  }

  /** Which cells of the cursor's line `K` blanks. */
  predicate Erases(mode: nat, column: int, c: int) {
    if mode == 1 then c <= column
    else if mode == 2 then c < COLUMNS
    else column <= c < COLUMNS
  }

  /** A line after `K`, cell by cell: erase-to-start can widen it. */
  function Erased(line: seq<char>, mode: nat, column: int): (r: seq<char>)
    requires column >= 0
  {
    var width := if mode == 1 && column >= |line| then column + 1 else |line|;
    seq(width, c requires 0 <= c < width =>
      if c >= |line| || Erases(mode, column, c) then ' ' else line[c])
  }

  function Execute(s: Screen, params: string, command: char): (t: Screen)
    requires WellFormed(s)
    ensures WellFormed(t)
  {
    var values := Values(params);
    var distance := OrOne(values[0]);
    match command
    case 'H' | 'f' =>
      s.(row := distance - 1, column := if |values| > 1 then OrOne(values[1]) - 1 else 0)
    case 'A' => s.(row := Clamp(0, ROWS - 1, s.row - distance))
    case 'B' => s.(row := Clamp(0, ROWS - 1, s.row + distance))
    case 'C' => s.(column := Clamp(0, COLUMNS - 1, s.column + distance))
    case 'D' => s.(column := Clamp(0, COLUMNS - 1, s.column - distance))
    case 'G' => s.(column := distance - 1)
    case 'J' => if values[0] == 2 || values[0] == 3 then s.(cells := BlankCells()) else s
    case 'K' =>
      if s.row < ROWS then
        s.(cells := s.cells[s.row := Erased(s.cells[s.row], values[0], s.column)])
      else s
    case _ => s
  }

  function Print(wide: char -> bool, s: Screen, c: char): (t: Screen)
    requires WellFormed(s)
    ensures WellFormed(t)
    ensures ExactWidth(s) ==> ExactWidth(t)
  {
    if c == '\r' then s.(column := 0)
    else if c == '\n' then s.(row := if s.row + 1 > ROWS - 1 then ROWS - 1 else s.row + 1)
    else if c == '\U{8}' then s.(column := if s.column == 0 then 0 else s.column - 1)
    else if c >= ' ' && c != DEL then
      var advance := if wide(c) then 2 else 1;
      if s.row < ROWS && s.column < COLUMNS then
        Screen(s.cells[s.row := s.cells[s.row][s.column := c]], s.row, s.column + advance)
      else s.(column := s.column + advance)
    else s
  }

  // --- The automaton ------------------------------------------------------

  datatype Probe = Probe(screen: Screen, pending: string)

  datatype Outcome = Running(probe: Probe) | Failed

  ghost predicate Sound(p: Probe) {
    WellFormed(p.screen) && IsPartial(p.pending)
  }

  function Step(wide: char -> bool, p: Probe, c: char): (o: Outcome)
    requires Sound(p)
    ensures o.Running? ==> Sound(o.probe)
  {
    if p.pending == [] then
      if c == ESC then Running(p.(pending := [ESC]))
      else Running(p.(screen := Print(wide, p.screen, c)))
    else if |p.pending| >= 2 && IsFinal(c) then
      Running(Probe(Execute(p.screen, LeadingParameters(p.pending[2..]), c), []))
    else if IsPartial(p.pending + [c]) then
      Running(p.(pending := p.pending + [c]))
    else Failed
  }

  function Run(wide: char -> bool, p: Probe, s: string): (o: Outcome)
    requires Sound(p)
    ensures o.Running? ==> Sound(o.probe)
    decreases |s|
  {
    if s == [] then Running(p)
    else
      var o := Step(wide, p, s[0]);
      if o.Failed? then Failed else Run(wide, o.probe, s[1..])
  }

  lemma {:induction false} RunAppend(wide: char -> bool, p: Probe, s: string, t: string)
    requires Sound(p)
    ensures Run(wide, p, s + t) ==
            (if Run(wide, p, s).Failed? then Failed else Run(wide, Run(wide, p, s).probe, t))
    decreases |s|
  {
    if s == [] {
      assert s + t == t;
    } else {
      assert (s + t)[1..] == s[1..] + t;
      var o := Step(wide, p, s[0]);
      if o.Running? {
        RunAppend(wide, o.probe, s[1..], t);
      }
    }
  }

  lemma PartialPrefix(t: string, k: nat)
    requires IsPartial(t) && k <= |t|
    ensures IsPartial(t[..k])
  {
    if k == 1 { assert t[..1] == [ESC]; }
  }

  /** Reading an unfinished sequence from the ground state only stores it. */
  lemma {:induction false} RunPartial(wide: char -> bool, s: Screen, t: string)
    requires WellFormed(s) && IsPartial(t)
    ensures Run(wide, Probe(s, []), t) == Running(Probe(s, t))
  {
    if t != [] {
      var k := |t| - 1;
      PartialPrefix(t, k);
      RunPartial(wide, s, t[..k]);
      assert t[..k] + [t[k]] == t;
      RunAppend(wide, Probe(s, []), t[..k], [t[k]]);
      assert Run(wide, Probe(s, t[..k]), [t[k]]) == Running(Probe(s, t));
    }
  }

  lemma RunCommand(wide: char -> bool, s: Screen, t: string, k: int)
    requires WellFormed(s) && IsCommand(t, k)
    ensures Run(wide, Probe(s, []), t) ==
            Run(wide, Probe(Execute(s, LeadingParameters(t[2..k]), t[k]), []), t[k + 1..])
  {
    RunPartial(wide, s, t[..k]);
    assert t == t[..k] + t[k..];
    RunAppend(wide, Probe(s, []), t[..k], t[k..]);
    assert t[..k][2..] == t[2..k];
    assert t[k..][1..] == t[k + 1..];
  }

  /** An escape that opens no command and is no unfinished one is refused. */
  lemma {:induction false} RunUnsupported(wide: char -> bool, s: Screen, t: string, r: string)
    requires WellFormed(s) && IsPartial(t) && t != []
    requires !IsPartial(t + r) && forall k :: !IsCommand(t + r, k)
    ensures Run(wide, Probe(s, t), r) == Failed
    decreases |r|
  {
    assert t + [] == t;
    assert (t + r)[..|t|] == t && (t + r)[|t|] == r[0];
    assert !IsCommand(t + r, |t|);
    if IsPartial(t + [r[0]]) {
      assert t + r == t + [r[0]] + r[1..];
      RunUnsupported(wide, s, t + [r[0]], r[1..]);
    }
  }

  // --- Feeding chunks -----------------------------------------------------

  /** What one call of `feed` does. */
  function FeedChunk(wide: char -> bool, p: Probe, chunk: string): (o: Outcome)
    requires Sound(p)
    ensures o.Running? ==> Sound(o.probe)
  {
    var o := Run(wide, p, chunk);
    if o.Running? && |o.probe.pending| > MAX_UNFINISHED then Failed else o
  }

  function FeedAll(wide: char -> bool, p: Probe, chunks: seq<string>): (o: Outcome)
    requires Sound(p)
    ensures o.Running? ==> Sound(o.probe)
    decreases |chunks|
  {
    if chunks == [] then Running(p)
    else
      var o := FeedChunk(wide, p, chunks[0]);
      if o.Failed? then Failed else FeedAll(wide, o.probe, chunks[1..])
  }

  function Joined(chunks: seq<string>): string {
    if chunks == [] then [] else chunks[0] + Joined(chunks[1..])
  }

  /** After `s` the probe holds an escape sequence longer than the limit. */
  ghost predicate OverlongAfter(wide: char -> bool, p: Probe, s: string)
    requires Sound(p)
  {
    var o := Run(wide, p, s);
    o.Running? && |o.probe.pending| > MAX_UNFINISHED
  }

  /** Some chunk boundary cuts an escape sequence already longer than the limit. */
  ghost predicate CutsOverlong(wide: char -> bool, p: Probe, chunks: seq<string>)
    requires Sound(p)
  {
    exists k | 0 <= k <= |chunks| :: OverlongAfter(wide, p, Joined(chunks[..k]))
  }

  lemma CutsOverlongUnfold(wide: char -> bool, p: Probe, chunks: seq<string>)
    requires Sound(p) && chunks != [] && |p.pending| <= MAX_UNFINISHED
    ensures var o := Run(wide, p, chunks[0]);
            CutsOverlong(wide, p, chunks) <==> o.Running? && CutsOverlong(wide, o.probe, chunks[1..])
  {
    var o := Run(wide, p, chunks[0]);
    var rest := chunks[1..];
    forall k | 0 < k <= |chunks|
      ensures OverlongAfter(wide, p, Joined(chunks[..k])) <==>
              o.Running? && OverlongAfter(wide, o.probe, Joined(rest[..k - 1]))
    {
      assert chunks[..k][1..] == rest[..k - 1];
      RunAppend(wide, p, chunks[0], Joined(rest[..k - 1]));
    }
    assert !OverlongAfter(wide, p, Joined(chunks[..0]));
    if o.Running? && CutsOverlong(wide, o.probe, rest) {
      var j :| 0 <= j <= |rest| && OverlongAfter(wide, o.probe, Joined(rest[..j]));
      var k := j + 1;
      assert OverlongAfter(wide, p, Joined(chunks[..k]));
    }
  }

  /** A chunked feed is the automaton on the joined stream, except that it also
      fails at a boundary inside an overlong escape. */
  lemma {:induction false} FeedAllMeaning(wide: char -> bool, p: Probe, chunks: seq<string>)
    requires Sound(p) && |p.pending| <= MAX_UNFINISHED
    ensures FeedAll(wide, p, chunks) ==
            (if CutsOverlong(wide, p, chunks) then Failed else Run(wide, p, Joined(chunks)))
    decreases |chunks|
  {
    if chunks == [] {
      assert chunks[..0] == [];
    } else {
      CutsOverlongUnfold(wide, p, chunks);
      RunAppend(wide, p, chunks[0], Joined(chunks[1..]));
      var o := Run(wide, p, chunks[0]);
      if o.Running? {
        if |o.probe.pending| <= MAX_UNFINISHED {
          FeedAllMeaning(wide, o.probe, chunks[1..]);
        } else {
          assert OverlongAfter(wide, o.probe, Joined(chunks[1..][..0]));
        }
      }
    }
  }

  /** Cutting a stream into chunks never changes the final cells, cursor and
      pending text, nor whether the feed fails: exactly when the whole feed
      fails anyway or no boundary cuts an overlong unfinished escape. */
  lemma {:induction false} ChunkingIsInvisible(wide: char -> bool, p: Probe, chunks: seq<string>)
    requires Sound(p) && |p.pending| <= MAX_UNFINISHED
    ensures FeedAll(wide, p, chunks) == FeedChunk(wide, p, Joined(chunks)) <==>
            FeedChunk(wide, p, Joined(chunks)).Failed? || !CutsOverlong(wide, p, chunks)
  {
    FeedAllMeaning(wide, p, chunks);
    assert chunks[..|chunks|] == chunks;
    assert OverlongAfter(wide, p, Joined(chunks)) ==> CutsOverlong(wide, p, chunks);
  }

  /** Two ways of cutting one stream agree when neither cuts an overlong escape. */
  lemma {:induction false} TwoCutsAgree(wide: char -> bool, p: Probe, a: seq<string>, b: seq<string>)
    requires Sound(p) && |p.pending| <= MAX_UNFINISHED
    requires Joined(a) == Joined(b)
    requires !CutsOverlong(wide, p, a) && !CutsOverlong(wide, p, b)
    ensures FeedAll(wide, p, a) == FeedAll(wide, p, b)
  {
    ChunkingIsInvisible(wide, p, a);
    ChunkingIsInvisible(wide, p, b);
  }

  /** The limit is visible: a complete command that is one character too long passes
      whole and fails when cut before its final character; one that just fits passes. */
  lemma OverlongCutIsVisible(wide: char -> bool, s: Screen)
    requires WellFormed(s)
    ensures var long, fitting := [ESC, '['] + seq(262143, _ => '?'), [ESC, '['] + seq(262142, _ => '?');
            && FeedAll(wide, Probe(s, []), [long + ['m']]).Running?
            && FeedAll(wide, Probe(s, []), [long, ['m']]).Failed?
            && FeedAll(wide, Probe(s, []), [fitting, ['m']]).Running?
  {
    CutAt(wide, s, 262143);
    CutAt(wide, s, 262142);
  }

  lemma CutAt(wide: char -> bool, s: Screen, n: nat)
    requires WellFormed(s)
    ensures var t := [ESC, '['] + seq(n, _ => '?');
            && FeedAll(wide, Probe(s, []), [t + ['m']]).Running?
            && (FeedAll(wide, Probe(s, []), [t, ['m']]).Running? <==> n + 2 <= MAX_UNFINISHED)
  {
    var t := [ESC, '['] + seq(n, _ => '?');
    RunPartial(wide, s, t);
    assert IsPartial((t + ['m'])[..|t|]) by { assert (t + ['m'])[..|t|] == t; }
    RunCommand(wide, s, t + ['m'], |t|);
    assert (t + ['m'])[|t| + 1..] == [];
    OneChunk(wide, Probe(s, []), t + ['m']);
    TwoChunks(wide, Probe(s, []), t, ['m']);
    RunAppend(wide, Probe(s, []), t, ['m']);
  }

  lemma OneChunk(wide: char -> bool, p: Probe, a: string)
    requires Sound(p)
    ensures FeedAll(wide, p, [a]) == FeedChunk(wide, p, a)
  {
    assert [a][1..] == [];
  }

  lemma TwoChunks(wide: char -> bool, p: Probe, a: string, b: string)
    requires Sound(p)
    ensures FeedAll(wide, p, [a, b]) ==
            var o := FeedChunk(wide, p, a);
            if o.Failed? then Failed else FeedChunk(wide, o.probe, b)
  {
    assert [a, b][1..] == [b];
    var o := FeedChunk(wide, p, a);
    if o.Running? { OneChunk(wide, o.probe, b); }
  }

  // --- Widths -------------------------------------------------------------

  /** The one event that widens a line: erase-to-start with the cursor past it. */
  predicate Widens(p: Probe, c: char) {
    && |p.pending| >= 2 && c == 'K'
    && Values(LeadingParameters(p.pending[2..]))[0] == 1
    && p.screen.row < ROWS && p.screen.column >= COLUMNS
  }

  lemma StepWidth(wide: char -> bool, p: Probe, c: char)
    requires Sound(p) && ExactWidth(p.screen) && Step(wide, p, c).Running?
    ensures ExactWidth(Step(wide, p, c).probe.screen) <==> !Widens(p, c)
  {
    if Widens(p, c) {
      var t := Step(wide, p, c).probe.screen;
      assert |t.cells[p.screen.row]| == p.screen.column + 1;
    }
  }

  /** No prefix of the run is about to widen a line. */
  ghost predicate NeverWidens(wide: char -> bool, p: Probe, s: string)
    requires Sound(p)
  {
    forall k | 0 <= k < |s| && Run(wide, p, s[..k]).Running? :: !Widens(Run(wide, p, s[..k]).probe, s[k])
  }

  lemma {:induction false} RunWidth(wide: char -> bool, p: Probe, s: string)
    requires Sound(p) && ExactWidth(p.screen) && Run(wide, p, s).Running? && NeverWidens(wide, p, s)
    ensures ExactWidth(Run(wide, p, s).probe.screen)
    decreases |s|
  {
    if s != [] {
      var k := |s| - 1;
      assert s == s[..k] + [s[k]];
      RunAppend(wide, p, s[..k], [s[k]]);
      assert NeverWidens(wide, p, s[..k]) by {
        forall j | 0 <= j < k && Run(wide, p, s[..k][..j]).Running?
          ensures !Widens(Run(wide, p, s[..k][..j]).probe, s[..k][j])
        {
          assert s[..k][..j] == s[..j];
        }
      }
      RunWidth(wide, p, s[..k]);
      var q := Run(wide, p, s[..k]).probe;
      StepWidth(wide, q, s[k]);
      assert Run(wide, q, [s[k]]) == Step(wide, q, s[k]);
    }
  }

  // --- The class ----------------------------------------------------------

  /** Python's slice assignment `line[start:end] = fill`. */
  function SliceAssign(line: seq<char>, start: int, end: int, fill: seq<char>): seq<char>
    requires start >= 0 && end >= 0
  {
    var a := if start < |line| then start else |line|;
    var e := if end < |line| then end else |line|;
    var b := if e < a then a else e;
    line[..a] + fill + line[b..]
  }

  /** The control-sequence pattern anchored at `index`: the end of its
      parameters and of its intermediates, when a final character follows. */
  method MatchControlSequence(output: string, index: nat)
    returns (found: bool, parametersEnd: nat, finalAt: nat)
    requires index < |output| && output[index] == ESC
    ensures found ==> index + 2 <= parametersEnd <= finalAt < |output|
    ensures found ==> IsCommand(output[index..], finalAt - index)
    ensures found ==> LeadingParameters(output[index + 2..finalAt]) == output[index + 2..parametersEnd]
    ensures !found ==> forall k :: !IsCommand(output[index..], k)
  {
    parametersEnd, finalAt := 0, 0;
    ghost var s := output[index..];
    if index + 1 >= |output| || output[index + 1] != '[' {
      forall k ensures !IsCommand(s, k) {
        if IsCommand(s, k) { CommandShape(s, k); }
      }
      return false, 0, 0;
    }
    parametersEnd := index + 2;
    while parametersEnd < |output| && IsParameter(output[parametersEnd])
      invariant index + 2 <= parametersEnd <= |output|
      invariant forall i | index + 2 <= i < parametersEnd :: IsParameter(output[i])
    {
      parametersEnd := parametersEnd + 1;
    }
    finalAt := parametersEnd;
    while finalAt < |output| && IsIntermediate(output[finalAt])
      invariant parametersEnd <= finalAt <= |output|
      invariant forall i | parametersEnd <= i < finalAt :: IsIntermediate(output[i])
    {
      finalAt := finalAt + 1;
    }
    found := finalAt < |output| && IsFinal(output[finalAt]);
    if found {
      assert IsPartial(s[..finalAt - index]);
      LeadingParametersOf(output[index + 2..finalAt], parametersEnd - index - 2);
      assert output[index + 2..finalAt][..parametersEnd - index - 2] == output[index + 2..parametersEnd];
    } else {
      forall k ensures !IsCommand(s, k) {
        if IsCommand(s, k) {
          ScanIsForced(s, k, parametersEnd - index, finalAt - index);
        }
      }
    }
  }

  lemma {:induction false} LeadingParametersOf(u: string, n: nat)
    requires n <= |u|
    requires forall i | 0 <= i < n :: IsParameter(u[i])
    requires n < |u| ==> !IsParameter(u[n])
    ensures LeadingParameters(u) == u[..n]
  {
    if n > 0 {
      LeadingParametersOf(u[1..], n - 1);
      assert u[..n] == [u[0]] + u[1..][..n - 1];
    }
  }

  lemma CommandShape(s: string, k: int)
    requires IsCommand(s, k)
    ensures s[0] == ESC && s[1] == '['
    ensures forall i | 2 <= i < k :: IsParameter(s[i]) || IsIntermediate(s[i])
    ensures forall i | 3 <= i < k && IsParameter(s[i]) :: IsParameter(s[i - 1])
  {
    forall i | 0 <= i < k ensures s[i] == s[..k][i] {}
  }

  /** The character classes are disjoint, so the two scans find the command. */
  lemma ScanIsForced(s: string, k: int, a: int, b: int)
    requires IsCommand(s, k) && 2 <= a <= b <= |s|
    requires forall i | 2 <= i < a :: IsParameter(s[i])
    requires forall i | a <= i < b :: IsIntermediate(s[i])
    requires a < |s| ==> !IsParameter(s[a])
    requires b < |s| ==> !IsIntermediate(s[b])
    ensures b == k
  {
    CommandShape(s, k);
    assert 3 <= b < k && IsParameter(s[b]) ==> IsParameter(s[b - 1]);
  }

  // Where the loop of `feed` stands, in terms of the automaton.

  lemma AtStart(wide: char -> bool, p: Probe, decoded: string)
    requires Sound(p)
    ensures Run(wide, Probe(p.screen, []), p.pending + decoded) == Run(wide, p, decoded)
  {
    RunPartial(wide, p.screen, p.pending);
    RunAppend(wide, Probe(p.screen, []), p.pending, decoded);
  }

  lemma AtCommand(wide: char -> bool, s: Screen, output: string, index: nat, finalAt: nat)
    requires WellFormed(s) && index <= finalAt < |output| && IsCommand(output[index..], finalAt - index)
    ensures Run(wide, Probe(s, []), output[index..]) ==
            Run(wide, Probe(Execute(s, LeadingParameters(output[index + 2..finalAt]), output[finalAt]), []),
                output[finalAt + 1..])
  {
    var rest := output[index..];
    RunCommand(wide, s, rest, finalAt - index);
    assert rest[2..finalAt - index] == output[index + 2..finalAt];
    assert rest[finalAt - index + 1..] == output[finalAt + 1..];
  }

  lemma AtUnsupported(wide: char -> bool, s: Screen, rest: string)
    requires WellFormed(s) && rest != [] && rest[0] == ESC
    requires !IsPartial(rest) && forall k :: !IsCommand(rest, k)
    ensures Run(wide, Probe(s, []), rest) == Failed
  {
    assert [ESC] + rest[1..] == rest;
    RunUnsupported(wide, s, [ESC], rest[1..]);
  }

  lemma AtCharacter(wide: char -> bool, s: Screen, output: string, index: nat)
    requires WellFormed(s) && index < |output| && output[index] != ESC
    ensures Run(wide, Probe(s, []), output[index..]) ==
            Run(wide, Probe(Print(wide, s, output[index]), []), output[index + 1..])
  {
    assert output[index..][1..] == output[index + 1..];
  }

  /** What the loop of `feed` does at an escape character. */
  datatype Scan = Executed(next: nat) | Unfinished | Refused

  class TuiScreen {
    var cells: seq<seq<char>>
    var row: int
    var column: int
    var pending: string
    const wide: char -> bool

    ghost function Grid(): Screen
      reads this
    {
      Screen(cells, row, column)
    }

    ghost function State(): Probe
      reads this
    {
      Probe(Grid(), pending)
    }

    ghost predicate Valid()
      reads this
    {
      Sound(State()) && |pending| <= MAX_UNFINISHED
    }

    constructor (wide: char -> bool)
      ensures Valid() && this.wide == wide
      ensures State() == Probe(Screen(BlankCells(), 0, 0), [])
    {
      this.cells := BlankCells();
      this.row, this.column := 0, 0;
      this.pending := [];
      this.wide := wide;
    }

    /** One control sequence, as `feed` carries it out. */
    method Perform(params: string, command: char)
      requires WellFormed(Grid())
      modifies this`cells, this`row, this`column
      ensures Grid() == Execute(old(Grid()), params, command)
    {
      var values := Values(params);
      var distance := OrOne(values[0]);
      if command == 'H' || command == 'f' {
        row := distance - 1;
        column := if |values| > 1 then OrOne(values[1]) - 1 else 0;
      } else if command == 'A' || command == 'B' {
        row := Clamp(0, ROWS - 1, if command == 'A' then row - distance else row + distance);
      } else if command == 'C' || command == 'D' {
        column := Clamp(0, COLUMNS - 1, if command == 'D' then column - distance else column + distance);
      } else if command == 'G' {
        column := distance - 1;
      } else if command == 'J' && (values[0] == 2 || values[0] == 3) {
        cells := BlankCells();
      } else if command == 'K' && 0 <= row < ROWS {
        var start := if values[0] == 1 || values[0] == 2 then 0 else column;
        var end := if values[0] == 1 then column + 1 else COLUMNS;
        var fill := Blanks(if end < start then 0 else end - start);
        var line := SliceAssign(cells[row], start, end, fill);
        assert line == Erased(cells[row], values[0], column);
        cells := cells[row := line];
      }
    }

    method Put(c: char)
      requires WellFormed(Grid())
      modifies this`cells, this`row, this`column
      ensures Grid() == Print(wide, old(Grid()), c)
    {
      if c == '\r' {
        column := 0;
      } else if c == '\n' {
        row := if row + 1 < ROWS - 1 then row + 1 else ROWS - 1;
      } else if c == '\U{8}' {
        column := if column - 1 > 0 then column - 1 else 0;
      } else if c as int >= 32 && c != DEL {
        if 0 <= row < ROWS && 0 <= column < COLUMNS {
          cells := cells[row := cells[row][column := c]];
        }
        column := column + (if wide(c) then 2 else 1);
      }
    }

    method Escape(output: string, index: nat) returns (scan: Scan)
      requires index < |output| && output[index] == ESC && WellFormed(Grid())
      modifies this`cells, this`row, this`column
      ensures WellFormed(Grid())
      ensures var before := Run(wide, Probe(old(Grid()), []), output[index..]);
              match scan
              case Executed(next) =>
                index < next <= |output| && before == Run(wide, Probe(Grid(), []), output[next..])
              case Unfinished =>
                |output[index..]| <= MAX_UNFINISHED && before == Running(Probe(Grid(), output[index..]))
              case Refused =>
                before.Running? ==> |before.probe.pending| > MAX_UNFINISHED
    {
      hide Step, Execute;
      var found, parametersEnd, finalAt := MatchControlSequence(output, index);
      if found {
        AtCommand(wide, Grid(), output, index, finalAt);
        Perform(output[index + 2..parametersEnd], output[finalAt]);
        return Executed(finalAt + 1);
      }
      var remainder := output[index..];
      if !IsPartial(remainder) {
        AtUnsupported(wide, Grid(), remainder);
        return Refused;
      }
      RunPartial(wide, Grid(), remainder);
      return if |remainder| > MAX_UNFINISHED then Refused else Unfinished;
    }

    /** `feed` on the characters the decoder produced: the object ends where the
        automaton ends, and fails exactly when `Feed` says so. */
    method Feed(decoded: string) returns (ok: bool)
      requires Valid()
      modifies this
      ensures ok <==> FeedChunk(wide, old(State()), decoded).Running?
      ensures ok ==> Valid() && State() == FeedChunk(wide, old(State()), decoded).probe
      ensures !ok ==> pending == old(pending) && Valid()
    {
      ghost var start := State();
      var output := pending + decoded;
      AtStart(wide, start, decoded);
      var index := 0;
      assert output[0..] == output;
      while index < |output|
        invariant 0 <= index <= |output|
        invariant pending == start.pending && WellFormed(Grid())
        invariant Run(wide, start, decoded) == Run(wide, Probe(Grid(), []), output[index..])
      {
        var c := output[index];
        if c == ESC {
          var scan := Escape(output, index);
          match scan {
            case Executed(next) =>
              index := next;
              continue;
            case Unfinished =>
              break;
            case Refused =>
              return false;
          }
        }
        AtCharacter(wide, Grid(), output, index);
        Put(c);
        index := index + 1;
      }
      pending := output[index..];
      return true;
    }
  }
}
