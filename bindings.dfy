/** The keybinding names of src/extension.js: generating the numbered
    names, and reading a name of the form `<action>-to-workspace-<target>`
    back into an action and a destination. */
module Bindings {
  import opened JsStrings
  import opened Grid

  /** `genBindings`: `prefix + 1`, ..., `prefix + count`, in order. */
  method GenBindings(prefix: string, count: nat) returns (bindings: seq<string>)
    ensures |bindings| == count
    ensures forall k :: 0 <= k < count ==> bindings[k] == prefix + FromNat(k + 1)
  {
    bindings := [];
    var i := 1;
    while i <= count
      invariant 1 <= i <= count + 1
      invariant |bindings| == i - 1
      invariant forall k :: 0 <= k < i - 1 ==> bindings[k] == prefix + FromNat(k + 1)
    {
      bindings := bindings + [prefix + FromNat(i)];
      i := i + 1;
    }
  }

  /** The fourth dash-separated component of a binding name. A decimal
      string is numeric, as JavaScript's `isNaN` and `>` coerce it; a name
      with fewer than four components has an undefined target. */
  datatype Target = Last | Numeric(value: nat) | Named(name: string) | Missing

  datatype Binding = Binding(action: string, target: Target)

  function ClassifyTarget(t: string): (r: Target)
    ensures r.Last? <==> t == "last"
    ensures r.Numeric? <==> t != "last" && IsDigits(t)
    ensures r.Numeric? ==> r.value == Value(t)
    ensures r.Named? ==> r.name == t
  {
    if t == "last" then Last
    else if IsDigits(t) then Numeric(Value(t))
    else Named(t)
  }

  /** `let [action, , , target] = binding.get_name().split("-")`. */
  function ParseBinding(name: string): (b: Binding)
    ensures '-' !in b.action && b.action <= name
    ensures |b.action| < |name| ==> name[|b.action|] == '-'
    ensures b.target.Named? ==> '-' !in b.target.name
  {
    var parts := Split(name, '-');
    Binding(parts[0], if |parts| >= 4 then ClassifyTarget(parts[3]) else Missing)
  }

  /** `Meta.MotionDirection[target.toUpperCase()]` for the four direction names. */
  function DirectionNamed(name: string): (d: Option<Direction>)
    ensures d == Some(Up) <==> name == "up"
    ensures d == Some(Down) <==> name == "down"
    ensures d == Some(Left) <==> name == "left"
    ensures d == Some(Right) <==> name == "right"
  {
    if name == "up" then Some(Up)
    else if name == "down" then Some(Down)
    else if name == "left" then Some(Left)
    else if name == "right" then Some(Right)
    else None
  }

  /** Where a switch binding sends the user: an existing workspace found by
      index, a move in a direction (possibly undefined), or the TypeError the
      source raises when it upper-cases an undefined target. */
  datatype Dispatch = ToWorkspace(index: nat) | Toward(dir: Option<Direction>) | TargetTypeError

  /** The first index of the row holding `active`. */
  function RowStart(active: nat, columns: int): (s: nat)
    requires columns >= 1
    ensures s <= active < s + columns
    ensures IndexToRowCol(s, columns) == RowCol(IndexToRowCol(active, columns).row, 0)
  {
    var a := IndexToRowCol(active, columns);
    CellOfIndex(a.row, 0, columns);
    a.row * columns
  }

  /** The target resolution of `showWorkspaceSwitcher` for `nWorkspaces`
      workspaces with `active` active: "last" is the last workspace, a
      positive number `k` is workspace `k - 1` (counted from the start of
      the active row under relative switching) when it exists, a name is a
      direction, and anything else is an undefined direction. */
  function Resolve(target: Target, active: nat, nWorkspaces: nat, columns: int, relative: bool): (d: Dispatch)
    requires columns >= 1
    ensures d.ToWorkspace? ==> d.index < nWorkspaces
    ensures d.TargetTypeError? <==> target.Missing?
    ensures target.Named? ==> d == Toward(DirectionNamed(target.name))
    ensures target.Last? && nWorkspaces >= 1 ==> d == ToWorkspace(nWorkspaces - 1)
    ensures target == Numeric(0) ==> d == Toward(None)
  {
    match target
    case Last =>
      if nWorkspaces >= 1 then ToWorkspace(nWorkspaces - 1) else Toward(None)
    case Named(name) => Toward(DirectionNamed(name))
    case Missing => TargetTypeError
    case Numeric(k) =>
      if k > 0 then
        var index := k - 1 + (if relative then RowStart(active, columns) else 0);
        if index < nWorkspaces then ToWorkspace(index) else Toward(None)
      else Toward(None)
  }

  /** A number `k` picks workspace `k - 1` when it exists, and otherwise an
      undefined direction, which leaves the active workspace in place. */
  lemma ResolveNumber(k: nat, active: nat, nWorkspaces: nat, columns: int)
    requires columns >= 1 && k >= 1
    ensures k - 1 < nWorkspaces ==> Resolve(Numeric(k), active, nWorkspaces, columns, false) == ToWorkspace(k - 1)
    ensures k - 1 >= nWorkspaces ==> Resolve(Numeric(k), active, nWorkspaces, columns, false) == Toward(None)
  {
  }

  /** Under relative switching a number `k` counts from the start of the
      active workspace's row: it picks that workspace when it exists and
      gives an undefined direction otherwise. A number up to the column
      count thus picks the cell in that column of the active row. */
  lemma {:induction false} ResolveRelative(k: nat, active: nat, nWorkspaces: nat, columns: int)
    requires columns >= 1 && k >= 1
    ensures var s := RowStart(active, columns);
            Resolve(Numeric(k), active, nWorkspaces, columns, true)
            == if s + k - 1 < nWorkspaces then ToWorkspace(s + k - 1) else Toward(None)
    ensures var d := Resolve(Numeric(k), active, nWorkspaces, columns, true);
            k <= columns && d.ToWorkspace? ==>
              IndexToRowCol(d.index, columns) == RowCol(IndexToRowCol(active, columns).row, k - 1)
  {
    if k <= columns {
      var row := IndexToRowCol(active, columns).row;
      CellOfIndex(row, k - 1, columns);
    }
  }

  /** A binding name built from a dash-free action and target splits back into them. */
  lemma {:induction false} ParseBindingName(action: string, target: string)
    requires '-' !in action && '-' !in target
    ensures ParseBinding(action + "-to-workspace-" + target) == Binding(action, ClassifyTarget(target))
  {
    var last := "workspace" + ['-'] + target;
    var middle := "to" + ['-'] + last;
    var name := action + ['-'] + middle;
    assert action + "-to-workspace-" + target == name;
    assert Split(target, '-') == [target];
    SplitCons("workspace", '-', target);
    SplitCons("to", '-', last);
    SplitCons(action, '-', middle);
    assert Split(name, '-') == [action, "to", "workspace", target];
  }

  /** Each generated switch name, `switch-to-workspace-<k>`, takes the user to
      workspace `k - 1` whenever that workspace exists. */
  lemma GeneratedSwitchBinding(k: nat, active: nat, nWorkspaces: nat, columns: int)
    requires columns >= 1 && 1 <= k <= nWorkspaces
    ensures var b := ParseBinding("switch-to-workspace-" + FromNat(k));
            b.action == "switch" &&
            Resolve(b.target, active, nWorkspaces, columns, false) == ToWorkspace(k - 1)
  {
    var digits := FromNat(k);
    assert '-' !in digits;
    assert digits != "last" by {
      assert IsDigit(digits[0]);
    }
    assert "switch-to-workspace-" + digits == "switch" + "-to-workspace-" + digits;
    ParseBindingName("switch", digits);
    ValueFromNat(k);
  }

  /** A direction name takes the user one step in that direction. */
  lemma DirectionBinding(name: string, dir: Direction, active: nat, nWorkspaces: nat, columns: int)
    requires columns >= 1
    requires DirectionNamed(name) == Some(dir)
    ensures var b := ParseBinding("switch-to-workspace-" + name);
            b.action == "switch" &&
            Resolve(b.target, active, nWorkspaces, columns, false) == Toward(Some(dir))
  {
    assert "switch-to-workspace-" + name == "switch" + "-to-workspace-" + name;
    assert !IsDigit(name[0]);
    ParseBindingName("switch", name);
  }
}
