/** The first revision, workspace-grid@mathematical.coffee.gmail.com/extension.js:
    a fixed 2 x 4 grid with no workspace cap, keybindings named after the
    four directions, and a clamped step with no wraparound. */
module LegacyGrid {
  import Grid

  /** The shipped `WORKSPACE_CONFIGURATION`. */
  const Rows: int := 2
  const Columns: int := 4

  /** The keybinding names it handles, which double as directions. */
  const UpBinding: string := "switch-to-workspace-up"
  const DownBinding: string := "switch-to-workspace-down"
  const LeftBinding: string := "switch-to-workspace-left"
  const RightBinding: string := "switch-to-workspace-right"

  /** `indexToRowCol`: `[row, column]` of an index, row-major and 0-based. */
  function IndexToRowCol(index: nat): (rc: (int, int))
    ensures 0 <= rc.0 && 0 <= rc.1 < Columns
    ensures rc.0 * Columns + rc.1 == index
  {
    (index / Columns, index % Columns)
  }

  /** `rowColToIndex`: the index of a `[row, column]` pair, with no cap. */
  function RowColToIndex(rc: (int, int)): (index: int)
    ensures 0 <= rc.0 && 0 <= rc.1 < Columns ==> index >= 0 && IndexToRowCol(index) == rc
  {
    rc.0 * Columns + rc.1
  }

  /** Every index converts to its cell and back, with no upper bound. */
  lemma IndexRoundTrip(index: nat)
    ensures RowColToIndex(IndexToRowCol(index)) == index
  {
  }

  /** The cell `moveWorkspace` computes from `from` for a direction name:
      clamped at the grid edge, unchanged for any other name. */
  function StepCell(direction: string, from: nat): (int, int)
  {
    var c := IndexToRowCol(from);
    if direction == LeftBinding then (c.0, Grid.Max(0, c.1 - 1))
    else if direction == RightBinding then (c.0, Grid.Min(Columns - 1, c.1 + 1))
    else if direction == UpBinding then (Grid.Max(0, c.0 - 1), c.1)
    else if direction == DownBinding then (Grid.Min(Rows - 1, c.0 + 1), c.1)
    else c
  }

  /** The index `moveWorkspace` moves to. */
  function StepTarget(direction: string, from: nat): (to: int)
    ensures from < Rows * Columns ==> 0 <= to < Rows * Columns
  {
    RowColToIndex(StepCell(direction, from))
  }

  /** The step clamps: Left and Up never go below 0, Right never past the
      last column, Down never past the last row, the other coordinate is
      unchanged, and any other name stays put. From inside the 2 x 4 grid
      the target stays inside it. */
  lemma StepClamps(direction: string, from: nat)
    requires from < Rows * Columns
    ensures var a := IndexToRowCol(from);
            var to := StepTarget(direction, from);
            0 <= to < Rows * Columns &&
            var b := IndexToRowCol(to);
            (direction == LeftBinding ==> b.0 == a.0 && b.1 == (if a.1 == 0 then 0 else a.1 - 1)) &&
            (direction == RightBinding ==> b.0 == a.0 && b.1 == (if a.1 == Columns - 1 then a.1 else a.1 + 1)) &&
            (direction == UpBinding ==> b.1 == a.1 && b.0 == (if a.0 == 0 then 0 else a.0 - 1)) &&
            (direction == DownBinding ==> b.1 == a.1 && b.0 == (if a.0 == Rows - 1 then a.0 else a.0 + 1)) &&
            (direction !in {LeftBinding, RightBinding, UpBinding, DownBinding} ==> to == from)
  {
    var c := StepCell(direction, from);
    assert 0 <= c.0 < Rows && 0 <= c.1 < Columns;
  }

  /** `modifyNumWorkspaces` asks the host for `rows * columns` workspaces. */
  function RequestedWorkspaces(): (n: nat)
    ensures n == 8
    ensures forall from: nat, direction: string ::
              from < n ==> 0 <= StepTarget(direction, from) < n
  {
    assert forall from: nat, direction: string ::
             from < Rows * Columns ==> 0 <= StepTarget(direction, from) < Rows * Columns by {
      forall from: nat, direction: string | from < Rows * Columns
        ensures 0 <= StepTarget(direction, from) < Rows * Columns
      {
        StepClamps(direction, from);
      }
    }
    Rows * Columns
  }

  /** What a keybinding leads to: the switcher popup shown with the
      direction and target index, or the TypeError of activating a
      workspace the host does not have. */
  datatype MoveOutcome = Displayed(direction: string, index: int) | NoSuchWorkspace(index: int)

  /** The outcome of `moveWorkspace` from `from` on a host with `nWorkspaces`
      workspaces, and the active index afterwards: the target is activated
      only when it differs from `from`, and activating a missing one fails. */
  function Move(direction: string, from: nat, nWorkspaces: nat): (r: (MoveOutcome, nat))
    ensures r.0.Displayed? ==> r.0 == Displayed(direction, r.1)
    ensures r.0.Displayed? <==> StepTarget(direction, from) == from || 0 <= StepTarget(direction, from) < nWorkspaces
    ensures r.0.Displayed? ==> r.1 == StepTarget(direction, from)
    ensures !r.0.Displayed? ==> r.0 == NoSuchWorkspace(StepTarget(direction, from)) && r.1 == from
  {
    var to := StepTarget(direction, from);
    if to == from then (Displayed(direction, to), from)
    else if 0 <= to < nWorkspaces then (Displayed(direction, to), to)
    else (NoSuchWorkspace(to), from)
  }

  /** On the requested 2 x 4 host every key displays an existing workspace. */
  lemma MoveAlwaysDisplays(direction: string, from: nat)
    requires from < RequestedWorkspaces()
    ensures var r := Move(direction, from, RequestedWorkspaces());
            r.0 == Displayed(direction, r.1) && r.1 < RequestedWorkspaces()
  {
  }

  /** The host as the first revision sees it: a workspace count, the active
      index and the log of activation requests. */
  class LegacyScreen {
    var nWorkspaces: nat
    var active: nat
    var activations: seq<nat>

    ghost predicate Valid()
      reads this
    {
      active < nWorkspaces
    }

    /** A host holding the requested 2 x 4 workspaces, the first active. */
    constructor ()
      ensures Valid() && nWorkspaces == RequestedWorkspaces() && active == 0 && activations == []
    {
      nWorkspaces := RequestedWorkspaces();
      active := 0;
      activations := [];
    }

    /** `moveWorkspace`: computes the clamped step in a `[row, column]` array
        that it updates through an alias, then activates the target only
        when it differs from the active index. */
    method MoveWorkspace(direction: string) returns (outcome: MoveOutcome)
      requires Valid()
      modifies this`active, this`activations
      ensures Valid()
      ensures (outcome, active) == Move(direction, old(active), nWorkspaces)
      ensures activations == old(activations) + (if active != old(active) then [active] else [])
    {
      var from := active;
      var rc := IndexToRowCol(from);
      var coord := new int[2];
      coord[0], coord[1] := rc.0, rc.1;
      var to := coord;
      if direction == LeftBinding {
        to[1] := Grid.Max(0, coord[1] - 1);
      } else if direction == RightBinding {
        to[1] := Grid.Min(Columns - 1, coord[1] + 1);
      } else if direction == UpBinding {
        to[0] := Grid.Max(0, coord[0] - 1);
      } else if direction == DownBinding {
        to[0] := Grid.Min(Rows - 1, coord[0] + 1);
      }
      assert (to[0], to[1]) == StepCell(direction, from);
      var toIndex := RowColToIndex((to[0], to[1]));
      if toIndex != from {
        if 0 <= toIndex < nWorkspaces {
          active := toIndex;
          activations := activations + [toIndex];
        } else {
          return NoSuchWorkspace(toIndex);
        }
      }
      outcome := Displayed(direction, toIndex);
    }

    /** `showWorkspaceSwitcher`: does nothing when the host has a single
        workspace, and otherwise moves in the direction the binding names. */
    method ShowWorkspaceSwitcher(bindingName: string) returns (outcome: Grid.Option<MoveOutcome>)
      requires Valid()
      modifies this`active, this`activations
      ensures Valid()
      ensures nWorkspaces == 1 ==> outcome == Grid.None && active == old(active) && activations == old(activations)
      ensures nWorkspaces != 1 ==> outcome.Some? && (outcome.value, active) == Move(bindingName, old(active), nWorkspaces)
      ensures activations == old(activations) + (if active != old(active) then [active] else [])
    {
      if nWorkspaces == 1 {
        return Grid.None;
      }
      var moved := MoveWorkspace(bindingName);
      outcome := Grid.Some(moved);
    }
  }
}
