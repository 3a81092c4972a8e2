/** What each command and each character does to the probe's screen, from the
    characters that are fed (`TuiScreen.feed` of scripts/local_provider_matrix_cases.py). */
module TuiCommands {
  import opened TuiScreens

  // --- Numbers in a command ----------------------------------------------------------

  /** Parameter, intermediate and final characters, by their codes (section 5.4 of ECMA-48). */
  lemma ClassesAre(c: char)
    ensures IsParameter(c) <==> 0x30 <= c as int <= 0x3F
    ensures IsIntermediate(c) <==> 0x20 <= c as int <= 0x2F
    ensures IsFinal(c) <==> 0x40 <= c as int <= 0x7E
  {}

  /** A number as a terminal writes it. */
  function DecimalText(n: nat): (t: string)
    ensures t != []
  {
    if n < 10 then ["0123456789"[n]] else DecimalText(n / 10) + ["0123456789"[n % 10]]
  }

  lemma {:induction false} DecimalIsRead(n: nat)
    ensures AllDigits(DecimalText(n)) && Number(DecimalText(n)) == n
    ensures forall i | 0 <= i < |DecimalText(n)| :: '0' <= DecimalText(n)[i] <= '9'
  {
    var t := DecimalText(n);
    if n < 10 {
      assert t[..0] == [];
    } else {
      DecimalIsRead(n / 10);
      assert t[..|t| - 1] == DecimalText(n / 10);
    }
  }

  lemma {:induction false} OneField(t: string)
    requires forall i | 0 <= i < |t| :: t[i] != ';'
    ensures Fields(t) == [t]
    decreases |t|
  {
    if t != [] {
      OneField(t[1..]);
      assert t == [t[0]] + t[1..];
    }
  }

  lemma {:induction false} TwoFields(t: string, u: string)
    requires forall i | 0 <= i < |t| :: t[i] != ';'
    requires forall i | 0 <= i < |u| :: u[i] != ';'
    ensures Fields(t + [';'] + u) == [t, u]
    decreases |t|
  {
    var all := t + [';'] + u;
    OneField(u);
    if t == [] {
      assert all[1..] == u;
    } else {
      assert all[1..] == t[1..] + [';'] + u;
      assert t == [t[0]] + t[1..];
      TwoFields(t[1..], u);
    }
  }

  /** `ESC [ n` and a final character. */
  function Command(n: nat, final: char): string {
    ['\U{1B}', '['] + DecimalText(n) + [final]
  }

  /** `ESC [ n ; m` and a final character. */
  function PairCommand(n: nat, m: nat, final: char): string {
    ['\U{1B}', '['] + (DecimalText(n) + [';'] + DecimalText(m)) + [final]
  }

  lemma {:induction false} LeadingIsAll(p: string)
    requires forall i | 0 <= i < |p| :: IsParameter(p[i])
    ensures LeadingParameters(p) == p
    decreases |p|
  {
    if p != [] {
      LeadingIsAll(p[1..]);
      assert p == [p[0]] + p[1..];
    }
  }

  lemma CommandRuns(wide: char -> bool, s: Screen, p: string, final: char)
    requires WellFormed(s) && IsFinal(final) && forall i | 0 <= i < |p| :: IsParameter(p[i])
    ensures Run(wide, Probe(s, []), ['\U{1B}', '['] + p + [final]) == Running(Probe(Execute(s, p, final), []))
  {
    var t := ['\U{1B}', '['] + p + [final];
    var k := |p| + 2;
    assert t[..k] == ['\U{1B}', '['] + p && t[2..k] == p && t[k + 1..] == [];
    hide Execute;
    RunCommand(wide, s, t, k);
    LeadingIsAll(p);
  }

  /** The screen after a command, when it is read to its end. */
  ghost predicate Ends(wide: char -> bool, s: Screen, t: string, after: Screen)
    requires WellFormed(s)
  {
    Run(wide, Probe(s, []), t) == Running(Probe(after, []))
  }

  lemma SingleRuns(wide: char -> bool, s: Screen, n: nat, final: char)
    requires WellFormed(s) && IsFinal(final)
    ensures Ends(wide, s, Command(n, final), Execute(s, DecimalText(n), final))
    ensures Values(DecimalText(n)) == [n]
  {
    hide Execute, Run;
    DecimalIsRead(n);
    OneField(DecimalText(n));
    CommandRuns(wide, s, DecimalText(n), final);
  }

  lemma PairRuns(wide: char -> bool, s: Screen, n: nat, m: nat, final: char)
    requires WellFormed(s) && IsFinal(final)
    ensures Ends(wide, s, PairCommand(n, m, final), Execute(s, DecimalText(n) + [';'] + DecimalText(m), final))
    ensures Values(DecimalText(n) + [';'] + DecimalText(m)) == [n, m]
  {
    hide Execute, Run;
    DecimalIsRead(n);
    DecimalIsRead(m);
    TwoFields(DecimalText(n), DecimalText(m));
    CommandRuns(wide, s, DecimalText(n) + [';'] + DecimalText(m), final);
  }

  /** A command without a number is the command with zero. */
  lemma BareIsZero(wide: char -> bool, s: Screen, final: char)
    requires WellFormed(s) && IsFinal(final)
    ensures Run(wide, Probe(s, []), ['\U{1B}', '[', final]) == Run(wide, Probe(s, []), Command(0, final))
  {
    SingleRuns(wide, s, 0, final);
    CommandRuns(wide, s, [], final);
    assert ['\U{1B}', '['] + [] + [final] == ['\U{1B}', '[', final];
    assert Values([]) == [0] by { assert Fields([]) == [[]]; }
    hide Run, Values;
    assert Execute(s, [], final) == Execute(s, DecimalText(0), final);
  }

  /** Any other command does nothing, whatever its parameters. */
  lemma OthersDoNothing(wide: char -> bool, s: Screen, p: string, final: char)
    requires WellFormed(s) && IsFinal(final) && final !in ['A', 'B', 'C', 'D', 'G', 'H', 'J', 'K', 'f']
    requires forall i | 0 <= i < |p| :: IsParameter(p[i])
    ensures Ends(wide, s, ['\U{1B}', '['] + p + [final], s)
  {
    hide Run, Fields;
    CommandRuns(wide, s, p, final);
  }

  // --- Moving the cursor -----------------------------------------------------------------

  /** A position kept from 0 to `last`. */
  function Kept(x: int, last: int): int {
    if x < 0 then 0 else if x > last then last else x
  }

  /** A distance of zero is one. */
  function Distance(n: nat): nat {
    if n == 0 then 1 else n
  }

  /** A moves up, B down, C right and D left, each within the screen, and moves nothing else. */
  lemma MovesCursor(wide: char -> bool, s: Screen, n: nat)
    requires WellFormed(s)
    ensures Ends(wide, s, Command(n, 'A'), Screen(s.cells, Kept(s.row - Distance(n), 39), s.column))
    ensures Ends(wide, s, Command(n, 'B'), Screen(s.cells, Kept(s.row + Distance(n), 39), s.column))
    ensures Ends(wide, s, Command(n, 'C'), Screen(s.cells, s.row, Kept(s.column + Distance(n), 119)))
    ensures Ends(wide, s, Command(n, 'D'), Screen(s.cells, s.row, Kept(s.column - Distance(n), 119)))
  {
    hide Run, Fields, DecimalText, Number;
    SingleRuns(wide, s, n, 'A');
    SingleRuns(wide, s, n, 'B');
    SingleRuns(wide, s, n, 'C');
    SingleRuns(wide, s, n, 'D');
  }

  /** H and f go to a row and a column counted from one, or to a row's first column; G
      goes to a column. None of them looks at the edge. */
  lemma PlacesCursor(wide: char -> bool, s: Screen, n: nat, m: nat)
    requires WellFormed(s)
    ensures forall final | final in ['H', 'f'] ::
              && Ends(wide, s, PairCommand(n, m, final), Screen(s.cells, Distance(n) - 1, Distance(m) - 1))
              && Ends(wide, s, Command(n, final), Screen(s.cells, Distance(n) - 1, 0))
    ensures Ends(wide, s, Command(n, 'G'), Screen(s.cells, s.row, Distance(n) - 1))
  {
    hide Run, Fields, DecimalText, Number, Ends;
    forall final | final in ['H', 'f']
      ensures Ends(wide, s, PairCommand(n, m, final), Screen(s.cells, Distance(n) - 1, Distance(m) - 1))
      ensures Ends(wide, s, Command(n, final), Screen(s.cells, Distance(n) - 1, 0))
    {
      PairRuns(wide, s, n, m, final);
      SingleRuns(wide, s, n, final);
    }
    SingleRuns(wide, s, n, 'G');
  }

  // --- Erasing -----------------------------------------------------------------------------

  /** Forty rows of 120 blanks. */
  predicate AllBlank(cells: seq<seq<char>>) {
    && |cells| == 40
    && forall r | 0 <= r < 40 :: |cells[r]| == 120 && forall c | 0 <= c < 120 :: cells[r][c] == ' '
  }

  /** J clears the screen under 2 and 3, and does nothing under any other number. */
  lemma ClearsScreen(wide: char -> bool, s: Screen, n: nat) returns (after: Screen)
    requires WellFormed(s)
    ensures Ends(wide, s, Command(n, 'J'), after) && after.row == s.row && after.column == s.column
    ensures if n == 2 || n == 3 then AllBlank(after.cells) else after.cells == s.cells
  {
    hide Run, Fields, DecimalText, Number, Ends;
    SingleRuns(wide, s, n, 'J');
    after := Execute(s, DecimalText(n), 'J');
  }

  /** Which cells of the cursor's row K makes blank: under 1 those up to the cursor,
      under 2 the 120 of the screen, under any other number those from the cursor on. */
  predicate Blanked(n: nat, column: int, c: int) {
    if n == 1 then c <= column else if n == 2 then c < 120 else column <= c < 120
  }

  /** K, cell by cell; under 1 it makes the row as long as it blanks. */
  lemma ErasesRow(wide: char -> bool, s: Screen, n: nat) returns (after: Screen)
    requires WellFormed(s)
    ensures Ends(wide, s, Command(n, 'K'), after) && after.row == s.row && after.column == s.column
    ensures |after.cells| == 40 && forall r | 0 <= r < 40 && r != s.row :: after.cells[r] == s.cells[r]
    ensures s.row < 40 ==>
              var was, line := s.cells[s.row], after.cells[s.row];
              && |line| == (if n == 1 && s.column >= |was| then s.column + 1 else |was|)
              && forall c | 0 <= c < |line| :: line[c] == if c >= |was| || Blanked(n, s.column, c) then ' ' else was[c]
  {
    hide Run, Fields, DecimalText, Number, Ends;
    SingleRuns(wide, s, n, 'K');
    after := Execute(s, DecimalText(n), 'K');
  }

  // --- Characters -----------------------------------------------------------------------------

  /** A carriage return goes to the first column, a newline one row down to the last at
      most, a backspace one column back to the first at most. */
  lemma ControlsMove(wide: char -> bool, s: Screen)
    requires WellFormed(s)
    ensures Ends(wide, s, ['\r'], Screen(s.cells, s.row, 0))
    ensures Ends(wide, s, ['\n'], Screen(s.cells, if s.row + 1 > 39 then 39 else s.row + 1, s.column))
    ensures Ends(wide, s, ['\U{8}'], Screen(s.cells, s.row, if s.column == 0 then 0 else s.column - 1))
  {
    OneStep(wide, s, '\r');
    OneStep(wide, s, '\n');
    OneStep(wide, s, '\U{8}');
    hide Run;
  }

  lemma OneStep(wide: char -> bool, s: Screen, c: char)
    requires WellFormed(s) && c != '\U{1B}'
    ensures Ends(wide, s, [c], Print(wide, s, c))
  {
    hide Print;
    var p := Probe(s, []);
    assert [c][1..] == [];
    var q := Probe(Print(wide, s, c), []);
    assert Step(wide, p, c) == Running(q) && [c][0] == c;
    assert Run(wide, q, []) == Running(q);
    assert Run(wide, p, [c]) == Run(wide, q, []);
  }

  /** Any other character below a blank, and a delete, does nothing; the rest are written
      where the cursor is, if that is on the screen, and move it by their width. */
  lemma PrintsCharacter(wide: char -> bool, s: Screen, c: char) returns (after: Screen)
    requires WellFormed(s) && c !in ['\U{1B}', '\r', '\n', '\U{8}']
    ensures Ends(wide, s, [c], after) && after.row == s.row
    ensures c as int < 32 || c as int == 127 ==> after == s
    ensures c as int >= 32 && c as int != 127 ==> after.column == s.column + (if wide(c) then 2 else 1)
    ensures |after.cells| == 40
    ensures forall i, j | 0 <= i < 40 && 0 <= j < |s.cells[i]| ::
              |after.cells[i]| == |s.cells[i]|
              && after.cells[i][j] == if c as int >= 32 && c as int != 127 && i == s.row && j == s.column && j < 120
                                      then c else s.cells[i][j]
  {
    OneStep(wide, s, c);
    after := Print(wide, s, c);
    hide Run;
  }
}
