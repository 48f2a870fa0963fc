/** The state-changing part of src/extension.js, on an abstract host: the
    workspace manager is a sequence of workspace ids in index order, the
    index of the active workspace and the log of activation requests made
    to it; `workspace_grid.rows` and `workspace_grid.columns` are fields the
    extension overwrites; the preferences are a value read from settings. */
module GridShell {
  import opened Grid
  import opened Bindings

  /** The preferences the core reads: row and column counts (1 to 36 in the
      preferences dialog), the wraparound switches and relative switching. */
  datatype Settings = Settings(rows: int, columns: int, wrap: WrapSettings, relativeSwitching: bool)

  predicate SettingsInRange(s: Settings)
  {
    1 <= s.rows <= MaxWorkspaces && 1 <= s.columns <= MaxWorkspaces
  }

  /** The argument of `actionMoveWorkspace`: a workspace index, or a motion
      direction (the host's directions are negative numbers, and an
      undefined direction also fails the `destination >= 0` test). */
  datatype Destination = WorkspaceIndex(index: nat) | Motion(dir: Option<Direction>)

  /** The index `actionMoveWorkspace` aims at before checking that it exists. */
  function DestinationIndex(dest: Destination, from: nat, nWorkspaces: int, rows: int, columns: int,
                            w: WrapSettings, overrideScroll: bool): (to: int)
    requires columns >= 1
    ensures dest.WorkspaceIndex? ==> to == dest.index
    ensures dest.Motion? && rows >= 1 ==> to == -1 || 0 <= to < MaxWorkspaces || to == nWorkspaces - 1
  {
    match dest
    case WorkspaceIndex(i) => i
    case Motion(Some(d)) => CalculateWorkspace(d, from, nWorkspaces, rows, columns, w, overrideScroll)
    case Motion(None) => CalculateUndirected(from, rows, columns, w.wraparound)
  }

  /** On a reconciled grid, every destination the source computes from a
      direction is an existing workspace, and an undefined direction is the
      active one. */
  lemma DestinationExists(dest: Destination, from: nat, rows: int, columns: int,
                          w: WrapSettings, overrideScroll: bool)
    requires InGrid(from, rows, columns) && dest.Motion?
    ensures var to := DestinationIndex(dest, from, rows * columns, rows, columns, w, overrideScroll);
            0 <= to < rows * columns && (dest.dir.None? ==> to == from)
  {
    if dest.dir.Some? {
      CalculateStaysInGrid(dest.dir.value, from, rows, columns, w, overrideScroll);
    }
  }

  /** No workspace id occurs twice. */
  predicate Distinct(ws: seq<nat>)
  {
    forall i, j :: 0 <= i < j < |ws| ==> ws[i] != ws[j]
  }

  /** `k` fresh workspace ids counted up from `first`. */
  function FreshIds(first: nat, k: nat): (ids: seq<nat>)
    ensures |ids| == k && Distinct(ids)
    ensures forall j :: 0 <= j < k ==> first <= ids[j] < first + k
  {
    seq(k, j requires 0 <= j => first + j)
  }

  /** The workspaces after `modifyNumWorkspaces` brings their number to
      `total`: new ones appended at the end, or the highest ones removed. */
  function Reconciled(ws: seq<nat>, firstId: nat, total: nat): (r: seq<nat>)
    ensures |r| == total
    ensures var keep := if |ws| < total then |ws| else total;
            r[..keep] == ws[..keep]
    ensures forall k :: |ws| <= k < total ==> r[k] == firstId + k - |ws|
  {
    if |ws| < total then ws + FreshIds(firstId, total - |ws|) else ws[..total]
  }

  /** Reconciling keeps workspace ids distinct when every old id is below
      the first fresh one, and the ids stay below the next unused one. */
  lemma ReconcileDistinct(ws: seq<nat>, firstId: nat, total: nat)
    requires Distinct(ws) && forall k :: 0 <= k < |ws| ==> ws[k] < firstId
    ensures var r := Reconciled(ws, firstId, total);
            Distinct(r) && forall k :: 0 <= k < |r| ==> r[k] < firstId + Max(0, total - |ws|)
  {
    var r := Reconciled(ws, firstId, total);
    forall i, j | 0 <= i < j < |r|
      ensures r[i] != r[j]
    {
      if j >= |ws| {
        assert r[j] == firstId + j - |ws|;
        if i >= |ws| {
          assert r[i] == firstId + i - |ws|;
        } else {
          assert r[i] == ws[i];
        }
      } else {
        assert r[i] == ws[i] && r[j] == ws[j];
      }
    }
    forall k | 0 <= k < |r|
      ensures r[k] < firstId + Max(0, total - |ws|)
    {
      if k < |ws| {
        assert r[k] == ws[k];
      }
    }
  }

  /** Reconciling an already reconciled list changes nothing, whatever ids are on offer. */
  lemma ReconcileIdempotent(ws: seq<nat>, firstId: nat, otherId: nat, total: nat)
    ensures Reconciled(Reconciled(ws, firstId, total), otherId, total) == Reconciled(ws, firstId, total)
  {
    var r := Reconciled(ws, firstId, total);
    assert r[..total] == r;
  }

  /** Growing 6 workspaces to 8 appends two and keeps 0-5; shrinking 8 to 6
      drops the two highest. */
  lemma ReconcileExamples()
    ensures Reconciled([10, 11, 12, 13, 14, 15], 16, 8) == [10, 11, 12, 13, 14, 15, 16, 17]
    ensures Reconciled([10, 11, 12, 13, 14, 15, 16, 17], 18, 6) == [10, 11, 12, 13, 14, 15]
  {
    var grown := Reconciled([10, 11, 12, 13, 14, 15], 16, 8);
    assert grown[6] == 16 && grown[7] == 17;
  }

  /** The active index after the highest workspaces are removed down to
      `total`: the host activates the neighbour of a removed active
      workspace, which ends on the last one kept. */
  function ActiveAfter(active: nat, total: nat): (r: nat)
    requires total >= 1
    ensures r < total
    ensures active < total ==> r == active
  {
    if active < total then active else total - 1
  }

  /** The outcome of a switch keybinding: nothing shown, the switcher popup
      shown with a direction and the target index, or the TypeError of an
      undefined target. */
  datatype SwitchOutcome = Ignored | Displayed(direction: Option<Direction>, index: nat) | Failed

  class GridShell {
    var workspaces: seq<nat>
    var active: nat
    var nextId: nat
    var activations: seq<nat>
    var rows: int
    var columns: int
    var settings: Settings

    ghost predicate Valid()
      reads this
    {
      && 1 <= |workspaces| && active < |workspaces|
      && 1 <= rows && 1 <= columns
      && SettingsInRange(settings)
      && Distinct(workspaces)
      && forall k :: 0 <= k < |workspaces| ==> workspaces[k] < nextId
    }

    /** A host with `n` workspaces, the first active, and the grid read from `s`. */
    constructor (n: nat, s: Settings)
      requires n >= 1 && SettingsInRange(s)
      ensures Valid()
      ensures |workspaces| == n && active == 0 && activations == []
      ensures settings == s && rows == s.rows && columns == s.columns
    {
      workspaces := FreshIds(0, n);
      nextId := n;
      active := 0;
      activations := [];
      settings := s;
      rows := s.rows;
      columns := s.columns;
    }

    /** The host's `append_new_workspace`. */
    method AppendNewWorkspace()
      requires Valid()
      modifies this`workspaces, this`nextId
      ensures Valid()
      ensures workspaces == old(workspaces) + [old(nextId)] && nextId == old(nextId) + 1
    {
      workspaces := workspaces + [nextId];
      nextId := nextId + 1;
    }

    /** The host's `remove_workspace`: the workspaces above `index` shift
        down, and removing the active last workspace activates the one
        before it. */
    method RemoveWorkspace(index: nat)
      requires Valid() && index < |workspaces| && |workspaces| >= 2
      modifies this`workspaces, this`active
      ensures Valid()
      ensures workspaces == old(workspaces[..index] + workspaces[index + 1..])
      ensures active == if old(active) > index || (old(active) == index && index == |workspaces|)
                        then old(active) - 1 else old(active)
    {
      workspaces := workspaces[..index] + workspaces[index + 1..];
      if active > index || (active == index && index == |workspaces|) {
        active := active - 1;
      }
    }

    /** The host's `activate` on the workspace at `index`. */
    method Activate(index: nat)
      requires Valid() && index < |workspaces|
      modifies this`active, this`activations
      ensures Valid()
      ensures active == index && activations == old(activations) + [index]
    {
      active := index;
      activations := activations + [index];
    }

    /** `exportFunctionsAndConstants`: publishes the configured grid, with
        the rows clamped when the grid has more cells than the cap. */
    method ExportFunctionsAndConstants()
      requires Valid()
      modifies this`rows, this`columns
      ensures Valid()
      ensures columns == settings.columns
      ensures rows == ClampRows(settings.rows, settings.columns)
    {
      rows := settings.rows;
      columns := settings.columns;
      if rows * columns > MaxWorkspaces {
        rows := CeilRows(columns);
      }
    }

    /** `modifyNumWorkspaces`: appends workspaces or removes the highest
        ones until there are `rows * columns`; lower indices keep their
        workspaces. */
    method ModifyNumWorkspaces()
      requires Valid()
      modifies this`workspaces, this`active, this`nextId
      ensures Valid()
      ensures workspaces == Reconciled(old(workspaces), old(nextId), rows * columns)
      ensures active == ActiveAfter(old(active), rows * columns)
      ensures nextId == old(nextId) + Max(0, rows * columns - |old(workspaces)|)
    {
      assert rows * columns >= 1 by {
        MulStep(0, rows, columns);
      }
      var newTotal := rows * columns;
      var n := |workspaces|;
      if n < newTotal {
        var i := n;
        while i < newTotal
          invariant n <= i <= newTotal
          invariant Valid() && active == old(active)
          invariant workspaces == old(workspaces) + FreshIds(old(nextId), i - n)
          invariant nextId == old(nextId) + (i - n)
        {
          AppendNewWorkspace();
          i := i + 1;
        }
      } else if n > newTotal {
        var i := n - 1;
        while i >= newTotal
          invariant newTotal - 1 <= i <= n - 1
          invariant Valid()
          invariant workspaces == old(workspaces)[..i + 1]
          invariant active == ActiveAfter(old(active), i + 1)
          invariant nextId == old(nextId)
        {
          RemoveWorkspace(i);
          i := i - 1;
        }
      }
    }

    /** `actionMoveWorkspace`: activates the destination when it differs
        from the active index, falling back to the active workspace when the
        destination does not exist, and returns the workspace now active. */
    method ActionMoveWorkspace(dest: Destination, overrideScroll: bool) returns (ws: nat)
      requires Valid()
      modifies this`active, this`activations
      ensures Valid()
      ensures var to := DestinationIndex(dest, old(active), |workspaces|, rows, columns,
                                         settings.wrap, overrideScroll);
              && ws == (if 0 <= to < |workspaces| then to else old(active))
              && activations == old(activations) + (if to != old(active) then [ws] else [])
      ensures active == ws
    {
      var from := active;
      var to := DestinationIndex(dest, from, |workspaces|, rows, columns, settings.wrap, overrideScroll);
      ws := if 0 <= to < |workspaces| then to else from;
      if to != from {
        Activate(ws);
      }
    }

    /** `showWorkspaceSwitcher` for a `switch-to-workspace-<target>` binding:
        nothing happens without workspaces or with a single one; an index
        target activates that workspace if it is not already active (the
        host's own `actionMoveWorkspace`), and anything else moves through
        `ActionMoveWorkspace` without the scroll override. */
    method ShowWorkspaceSwitcher(name: string, hasWorkspaces: bool) returns (outcome: SwitchOutcome)
      requires Valid() && ParseBinding(name).action == "switch"
      modifies this`active, this`activations
      ensures Valid()
      ensures !hasWorkspaces || |workspaces| == 1 ==>
                outcome == Ignored && active == old(active) && activations == old(activations)
      ensures hasWorkspaces && |workspaces| != 1 ==>
                match Resolve(ParseBinding(name).target, old(active), |workspaces|, columns,
                              settings.relativeSwitching)
                case TargetTypeError =>
                  outcome == Failed && active == old(active) && activations == old(activations)
                case ToWorkspace(i) =>
                  && outcome == Displayed(Some(Up), i) && active == i
                  && activations == old(activations) + (if i != old(active) then [i] else [])
                case Toward(d) =>
                  var to := DestinationIndex(Motion(d), old(active), |workspaces|, rows, columns,
                                             settings.wrap, false);
                  && active == (if 0 <= to < |workspaces| then to else old(active))
                  && outcome == Displayed(d, active)
                  && activations == old(activations) + (if to != old(active) then [active] else [])
    {
      if !hasWorkspaces || |workspaces| == 1 {
        return Ignored;
      }
      var binding := ParseBinding(name);
      match Resolve(binding.target, active, |workspaces|, columns, settings.relativeSwitching)
      case TargetTypeError =>
        outcome := Failed;
      case ToWorkspace(i) =>
        if i != active {
          Activate(i);
        }
        outcome := Displayed(Some(Up), i);
      case Toward(d) =>
        var ws := ActionMoveWorkspace(Motion(d), false);
        outcome := Displayed(d, ws);
    }

    /** `nWorkspacesChanged`, run when the rows or columns preference
        changes: republish the grid, then reconcile the workspace count. The
        host then holds exactly the grid's workspaces, and when the clamped
        grid fits under the cap every direction from the active workspace
        names an existing one. Lower workspaces are kept, the activation
        log is untouched, and no workspace id occurs twice. */
    method NWorkspacesChanged()
      requires Valid()
      modifies this`rows, this`columns, this`workspaces, this`active, this`nextId
      ensures Valid()
      ensures columns == settings.columns && rows == ClampRows(settings.rows, settings.columns)
      ensures |workspaces| == rows * columns
      ensures workspaces == Reconciled(old(workspaces), old(nextId), rows * columns)
      ensures active == ActiveAfter(old(active), rows * columns)
      ensures activations == old(activations)
      ensures rows * columns <= MaxWorkspaces ==>
                forall d: Direction, o: bool ::
                  0 <= CalculateWorkspace(d, active, |workspaces|, rows, columns, settings.wrap, o) < |workspaces|
    {
      ExportFunctionsAndConstants();
      ModifyNumWorkspaces();
      if rows * columns <= MaxWorkspaces {
        forall d: Direction, o: bool
          ensures 0 <= CalculateWorkspace(d, active, |workspaces|, rows, columns, settings.wrap, o) < |workspaces|
        {
          CalculateStaysInGrid(d, active, rows, columns, settings.wrap, o);
        }
      }
    }
  }
}
