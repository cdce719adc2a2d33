/**
 * The interactive monitor's application state (src/app.rs): which key does
 * what, and how the highlighted row of the process table moves.
 *
 * The table's selection, kept by ratatui's `TableState` in the source, is the
 * field `selected: Option<nat>` here. The pure functions below say what each
 * operation computes; the class `App` performs it in place and its methods are
 * proved against them.
 */
module App {
  import opened Wrappers
  import opened Model

  /** The keys crossterm can report that the handler distinguishes, plus a few it ignores. */
  datatype KeyCode =
    | Char(c: char)
    | Esc
    | Up
    | Down
    | Left
    | Right
    | Enter
    | Tab
    | Backspace
    | F(n: nat)

  /** The effect a key has on the application state. */
  datatype Action = Quit | SortColumn(column: SortBy) | MovePrevious | MoveNext | Ignore

  /**
   * The dispatch of `handle_key` (src/app.rs:31-39). Its arms are tried in
   * order, so the `Char('j') | Char('J')` alternatives that the source also
   * lists in the `Down` arm are already taken by the `Up` arm: the `Down`
   * arm here is `Down` alone (a repeated pattern would be dead).
   */
  function Command(key: KeyCode): (a: Action)
    ensures a == Quit <==> key == Char('q') || key == Esc
    ensures a == SortColumn(Cpu) <==> key == Char('c') || key == Char('C')
    ensures a == SortColumn(Memory) <==> key == Char('m') || key == Char('M')
    ensures a == SortColumn(Pid) <==> key == Char('p') || key == Char('P')
    ensures a == SortColumn(Name) <==> key == Char('n') || key == Char('N')
    ensures a == MovePrevious <==> key == Up || key == Char('j') || key == Char('J')
    ensures a == MoveNext <==> key == Down
  {
    match key
    case Char('q') | Esc => Quit
    case Char('c') | Char('C') => SortColumn(Cpu)
    case Char('m') | Char('M') => SortColumn(Memory)
    case Char('p') | Char('P') => SortColumn(Pid)
    case Char('n') | Char('N') => SortColumn(Name)
    case Up | Char('j') | Char('J') => MovePrevious
    case Down => MoveNext
    case _ => Ignore
  }

  /**
   * The row `next_process` selects in a table of `len` rows (src/app.rs:43-55).
   * `len - 1` is a `usize` subtraction, so with a selection and no rows the
   * source underflows: that case is excluded.
   */
  function NextSelection(selected: Option<nat>, len: nat): (r: nat)
    requires selected.Some? ==> len > 0
    ensures selected.None? ==> r == 0
    ensures len > 0 ==> r < len
    ensures selected.Some? && selected.value < len ==> r == (selected.value + 1) % len
    ensures selected.Some? && selected.value >= len ==> r == 0
  {
    match selected
    case Some(i) => if i >= len - 1 then 0 else i + 1
    case None => 0
  }

  /**
   * The row `previous_process` selects in a table of `len` rows
   * (src/app.rs:57-69). Only the wrap from row 0 computes `len - 1`, so only
   * that case needs a row to exist.
   */
  function PreviousSelection(selected: Option<nat>, len: nat): (r: nat)
    requires selected == Some(0) ==> len > 0
    ensures selected.None? ==> r == 0
    ensures selected.Some? && selected.value < len ==> r == (selected.value + len - 1) % len
    ensures selected.Some? && selected.value > 0 ==> r + 1 == selected.value
  {
    match selected
    case Some(i) => if i <= 0 then len - 1 else i - 1
    case None => 0
  }

  /** A selection that designates an existing row, or no selection. */
  predicate InRange(selected: Option<nat>, len: nat) {
    selected.Some? ==> selected.value < len
  }

  /** The abstract value of an `App` (its fields other than the unused cache and timer). */
  datatype AppState = AppState(
    processes: seq<ProcessInfo>,
    sortBy: Option<SortBy>,
    selected: Option<nat>,
    shouldQuit: bool)

  /** Whether `key` can be handled in state `s` without the `usize` underflow of src/app.rs:46 or :61. */
  predicate CanHandle(s: AppState, key: KeyCode) {
    match Command(key)
    case MoveNext => s.selected.Some? ==> |s.processes| > 0
    case MovePrevious => s.selected == Some(0) ==> |s.processes| > 0
    case _ => true
  }

  /** The state after `handle_key(key)` (src/app.rs:30-41). */
  function HandleKeySpec(s: AppState, key: KeyCode): AppState
    requires CanHandle(s, key)
  {
    match Command(key)
    case Quit => s.(shouldQuit := true)
    case SortColumn(column) => s.(sortBy := Some(column))
    case MovePrevious => s.(selected := Some(PreviousSelection(s.selected, |s.processes|)))
    case MoveNext => s.(selected := Some(NextSelection(s.selected, |s.processes|)))
    case Ignore => s
  }

  /** The application object of src/app.rs:7-15. */
  class App {
    var processes: seq<ProcessInfo>
    var sortBy: Option<SortBy>
    var selected: Option<nat>
    var shouldQuit: bool

    function State(): AppState
      reads this
    {
      AppState(processes, sortBy, selected, shouldQuit)
    }

    /** `App::new` (src/app.rs:18-28): no processes, no sort key, nothing selected, not quitting. */
    constructor ()
      ensures State() == AppState([], None, None, false)
    {
      processes := [];
      sortBy := None;
      selected := None;
      shouldQuit := false;
    }

    /** `next_process` (src/app.rs:43-55). */
    method NextProcess()
      requires selected.Some? ==> |processes| > 0
      modifies this
      ensures processes == old(processes) && sortBy == old(sortBy) && shouldQuit == old(shouldQuit)
      ensures selected == Some(NextSelection(old(selected), |processes|))
    {
      var i;
      match selected {
        case Some(current) =>
          if current >= |processes| - 1 {
            i := 0;
          } else {
            i := current + 1;
          }
        case None =>
          i := 0;
      }
      selected := Some(i);
    }

    /** `previous_process` (src/app.rs:57-69). */
    method PreviousProcess()
      requires selected == Some(0) ==> |processes| > 0
      modifies this
      ensures processes == old(processes) && sortBy == old(sortBy) && shouldQuit == old(shouldQuit)
      ensures selected == Some(PreviousSelection(old(selected), |processes|))
    {
      var i;
      match selected {
        case Some(current) =>
          if current <= 0 {
            i := |processes| - 1;
          } else {
            i := current - 1;
          }
        case None =>
          i := 0;
      }
      selected := Some(i);
    }

    /** `handle_key` (src/app.rs:30-41). */
    method HandleKey(key: KeyCode)
      requires CanHandle(State(), key)
      modifies this
      ensures State() == HandleKeySpec(old(State()), key)
    {
      match Command(key) {
        case Quit => shouldQuit := true;
        case SortColumn(column) => sortBy := Some(column);
        case MovePrevious => PreviousProcess();
        case MoveNext => NextProcess();
        case Ignore =>
      }
    }
  }

  /** `q` and Esc request exit and leave the sort key, the selection and the rows alone. */
  lemma QuitKeys(s: AppState, key: KeyCode)
    requires key == Char('q') || key == Esc
    ensures CanHandle(s, key)
    ensures HandleKeySpec(s, key) == s.(shouldQuit := true)
  {
  }

  /** The sort keys set the sort column, in either case, and change nothing else. */
  lemma SortKeys(s: AppState, key: KeyCode, column: SortBy)
    requires key.Char?
    requires column == Cpu ==> key.c in "cC"
    requires column == Memory ==> key.c in "mM"
    requires column == Pid ==> key.c in "pP"
    requires column == Name ==> key.c in "nN"
    ensures CanHandle(s, key)
    ensures HandleKeySpec(s, key) == s.(sortBy := Some(column))
  {
  }

  /** Every key that is not bound to an action leaves the whole state unchanged. */
  lemma UnboundKeys(s: AppState, key: KeyCode)
    requires key !in {Char('q'), Esc, Up, Down, Char('j'), Char('J')}
    requires !(key.Char? && key.c in "cCmMpPnN")
    ensures CanHandle(s, key)
    ensures HandleKeySpec(s, key) == s
  {
  }

  /** Up, `j` and `J` all move to the previous row; only Down moves to the next one. */
  lemma NavigationKeys(s: AppState, key: KeyCode)
    requires key in {Up, Down, Char('j'), Char('J')}
    requires CanHandle(s, key)
    ensures key == Down ==> HandleKeySpec(s, key).selected == Some(NextSelection(s.selected, |s.processes|))
    ensures key != Down ==> HandleKeySpec(s, key).selected == Some(PreviousSelection(s.selected, |s.processes|))
    ensures HandleKeySpec(s, key).(selected := s.selected) == s
  {
  }

  /** With at least one row, any key is handled, and a selection that designates a row keeps doing so. */
  lemma HandleKeyKeepsSelectionInRange(s: AppState, key: KeyCode)
    requires |s.processes| > 0 && InRange(s.selected, |s.processes|)
    ensures CanHandle(s, key)
    ensures InRange(HandleKeySpec(s, key).selected, |s.processes|)
  {
  }

  /** Moving to the next row and then back restores the selection, including across the wrap at the last row. */
  lemma NextThenPrevious(i: nat, len: nat)
    requires i < len
    ensures PreviousSelection(Some(NextSelection(Some(i), len)), len) == i
  {
  }

  /** Moving to the previous row and then forward restores the selection, including across the wrap at row 0. */
  lemma PreviousThenNext(i: nat, len: nat)
    requires i < len
    ensures NextSelection(Some(PreviousSelection(Some(i), len)), len) == i
  {
  }
}
