# Workspace grid navigation, modelled in Dafny

The workspace-grid shell extension shows the host window manager's linear
list of workspaces as a row-major grid of `rows x columns` cells. The extension
assumes that Mutter holds at most 36 workspaces (`MAX_WORKSPACES`). Its own
comment marks this as an observation, and its TODO notes that newer GNOME
releases may not have the limit. The model takes the constant as the
extension uses it. This project models the
extension's grid logic and proves its properties:

- converting between a workspace index and its (row, column);
- the one-cell step in a direction, clamped at the grid edge;
- the wraparound policy at an edge, and the scroll-direction override;
- how a keybinding name such as `switch-to-workspace-3` is read into a destination;
- `actionMoveWorkspace`, which activates a workspace only when it differs from the active one;
- reconciling the host's workspace count with `rows * columns`;
- the rows clamp applied when the grid exceeds the cap;
- the shell-version ids of `src/version.js`;
- the first revision of the extension (`workspace-grid@mathematical.coffee.gmail.com`), with a fixed 2 x 4 grid.

Files, one module each:

- `strings.dfy` (`JsStrings`): the JavaScript string behaviour the source relies on. It covers `split` on one character, writing a number in decimal, and reading leading decimal digits.
- `grid.dfy` (`Grid`): the pure grid arithmetic of `src/extension.js`. The active index, the workspace count and the grid size are parameters.
- `bindings.dfy` (`Bindings`): `genBindings` as a method with a loop. It also reads binding names back into an action and a destination.
- `shell.dfy` (`GridShell`): a class for the state the source changes. The host workspace manager is a sequence of workspace ids, an active index and a log of activation requests. `workspace_grid.rows` and `.columns` are fields. The preferences are a `Settings` value.
- `version.dfy` (`Version`): `getShellVersionId` with JavaScript's 32-bit `<<` written out, and `getShellVersionIdFromString`.
- `legacy.dfy` (`LegacyGrid`): the first revision's fixed 2 x 4 grid, as pure functions plus a class for its host.

The rows clamp comes with the comment "It seems you can only have 36
workspaces max" (src/extension.js:1492). It logs the warning "You can have at
most 36 workspaces, will ignore the rest" (src/extension.js:1497-1500). Both
read as if the clamped grid keeps `rows * columns <= 36`. The code does not: it
sets `rows = Math.ceil(36 / columns)`. So the clamped grid covers the cap, but
its last row can run past it. For example, 10 rows of 5 columns become 8 rows,
which is 40 cells. This model follows the code (`Grid.ClampRows`,
`Grid.ClampCanExceedCap`). It proves the navigation properties that need the
whole grid below the cap under that hypothesis (`Grid.InGrid`). Cells past the
cap get the `-1` sentinel from `rowColToIndex`, and `actionMoveWorkspace` then
keeps the active workspace (`Grid.ClampedGridWrapPastCap`).

## Model

| member | source | states |
|---|---|---|
| `JsStrings.Split` | src/extension.js:424 | `split` returns pieces that contain no separator and that rejoin, with the separator between them, to the input. There is a single piece exactly when the input has no separator |
| `JsStrings.SplitCons` | src/version.js:20-21 | splitting `a + sep + b`, when `a` has no separator, gives `a` followed by the pieces of `b` |
| `JsStrings.FromNat` | src/extension.js:195 | the decimal form of a number is a non-empty digit string with no leading zero |
| `JsStrings.ValueFromNat` | src/extension.js:195 | reading the decimal form of `n` back gives `n` |
| `JsStrings.FromNatInjective` | src/extension.js:192-198 | distinct numbers have distinct decimal forms, so each generated binding name is unique |
| `JsStrings.LeadingDigits` | src/version.js:20-21 | the longest digit prefix is a prefix, all digits, and is followed by a non-digit or by the end |
| `JsStrings.LeadingDigitsOfDigits` | src/version.js:20-21 | the digit prefix of a digit string followed by a non-digit is that string |
| `Grid.IndexToRowCol` | src/extension.js:227-233 | the cell of an index has a column in `[0, columns)` and a row of at least 0, and `row * columns + col` is the index |
| `Grid.RowColToIndex` | src/extension.js:240-247 | from the cap up a cell gives the sentinel -1. Below the cap, a cell with its column in range gives an index in `[0, 36)` whose cell under `indexToRowCol` is that same cell, so it inverts `indexToRowCol` |
| `Grid.CellOfIndex` | src/extension.js:227-233 | a cell with its column in range is the unique row-major decomposition of its index |
| `Grid.IndexRoundTrip` | src/extension.js:227-247 | an index below 36 converted to its cell and back is unchanged |
| `Grid.InGridRow` | src/extension.js:227-233 | an index lies in a `rows x columns` grid exactly when its row is below `rows` |
| `Grid.Neighbor` | src/extension.js:272-294 | `get_neighbor` gives the -1 sentinel or an index below the cap, and it returns the active index when that index lies below the cap on the edge the direction points at. `Grid.NeighborStep` gives the exact step |
| `Grid.NeighborStep` | src/extension.js:272-294 | `get_neighbor` stays in the grid and moves along one axis only: Left/Right change only the column and Up/Down only the row, by at most one toward the direction. It returns the starting index exactly when the start is on the edge the direction points at |
| `Grid.ScrollDirection` | src/extension.js:296-308 | on the "horizontal" axis Up becomes Left and Down becomes Right, so only horizontal moves remain and the sense is kept. Any other axis leaves the direction unchanged |
| `Grid.ScrollOverride` | src/extension.js:318-324 | a move under the scroll override equals a plain move in the remapped direction, with wrap-to-same also requiring its scroll flavour. Without the override, the scroll axis and the scroll wrap flag never change the result. On a non-horizontal axis with the scroll wrap flag set, the override changes nothing |
| `Grid.EffectiveWrapToSame` | src/extension.js:318-324 | the wrap-to-same flag in force is `wrapToSame`, and also `wrapToSameScroll` under the scroll override |
| `Grid.CalculateUndirected` | src/extension.js:272-368 | with an undefined direction, `calculateWorkspace` returns -1 from the cap up. Below the cap it returns the active index, except under wraparound when the active index lies past the grid's last row. Then the wrap step's `row > rows - 1` test sends it to workspace 0 |
| `Grid.CalculateWorkspace` | src/extension.js:311-368 | `calculateWorkspace` gives the -1 sentinel, an index below the cap, or the last workspace. Inside a grid under the cap (`Grid.InGrid`), `Grid.ScrollOverride`, `Grid.CalculateIsNeighbor`, `Grid.WrapToSameLine`, `Grid.WrapToAdjacentLine` and `Grid.CalculateStaysInGrid` characterise it exactly. Outside such a grid, `Grid.ClampedGridWrapPastCap` and `Grid.WrapFromPastGrid` show the wrap step giving -1 and 0 |
| `Grid.CalculateIsNeighbor` | src/extension.js:326-331 | without wraparound, or when the clamped neighbour differs from the active index, the result is that neighbour |
| `Grid.WrapToSameLine` | src/extension.js:333-367 | when wrapping with wrap-to-same at an edge, the result is the opposite end of the same row (Left/Right) or column (Up/Down) |
| `Grid.WrapToAdjacentLine` | src/extension.js:333-367 | when wrapping without wrap-to-same, the result is the opposite end of the adjacent row or column. Going before the first line gives `n_workspaces - 1` and going past the last gives 0 |
| `Grid.CalculateStaysInGrid` | src/extension.js:311-368 | when the host holds exactly the `rows * columns` workspaces of a grid under the cap, every move from an existing workspace names an existing workspace |
| `Grid.CeilRows` | src/extension.js:1501-1503 | `Math.ceil(36 / columns)` is the fewest rows whose grid reaches 36 cells |
| `Grid.ClampRows` | src/extension.js:1493-1504 | rows are kept when the grid fits under 36. Otherwise they drop, never rise, to the fewest rows that cover 36 |
| `Grid.ClampCanExceedCap` | src/extension.js:1493-1504 | the clamp can leave more than 36 cells: 10 x 5 becomes 8 x 5 |
| `Grid.TwoByFourNoWrap` | src/extension.js:326-331 | in a 2 x 4 grid without wraparound, Left from 0 stays at 0 |
| `Grid.TwoByFourKeepLine` | src/extension.js:333-367 | in a 2 x 4 grid with wrap-to-same, Right from 3 gives 0 |
| `Grid.TwoByFourNextLine` | src/extension.js:333-367 | in a 2 x 4 grid without wrap-to-same, Right from 3 gives 4 and Left from 0 gives 7 |
| `Grid.TwoByFourScroll` | src/extension.js:318-324 | with a horizontal scroll override, Down from 3 acts as Right. It gives 0 with wrap-to-same for scrolling and 4 without |
| `Grid.ClampedGridWrapPastCap` | src/extension.js:346-365 | on the 8 x 5 grid that the clamp leaves for 10 x 5, Up from workspace 3 with wrap-to-same aims at index 38, past the cap, and gives -1. So `actionMoveWorkspace` keeps the active workspace |
| `Grid.WrapFromPastGrid` | src/extension.js:338-363 | in a 2 x 2 grid on a host with 10 workspaces, Right from workspace 5 (row 2, past the last row) wraps with wrap-to-same to workspace 0 |
| `Bindings.GenBindings` | src/extension.js:192-198 | `genBindings` returns `count` names, and name `k` is the prefix followed by the decimal form of `k + 1` |
| `Bindings.ClassifyTarget` | src/extension.js:440-453 | a target is "last", numeric exactly when it is a digit string, or a name otherwise |
| `Bindings.ParseBinding` | src/extension.js:424 | the action is the longest dash-free prefix of the binding name: it is followed by a dash or by the end. A named target holds no dash. `Bindings.ParseBindingName` gives the round trip |
| `Bindings.DirectionNamed` | src/extension.js:452 | "up", "down", "left" and "right" name their directions, and nothing else names them |
| `Bindings.RowStart` | src/extension.js:455-462 | the first index of the active row is at most the active index and less than a row before it, and lies in column 0 of that row |
| `Bindings.Resolve` | src/extension.js:440-465 | an explicit target always exists. "last" is `n_workspaces - 1`. A name is a direction. Target 0 is an undefined direction. Only a missing target raises the TypeError |
| `Bindings.ResolveNumber` | src/extension.js:453-465 | a number `k` selects workspace `k - 1` when it exists, and otherwise an undefined direction |
| `Bindings.ResolveRelative` | src/extension.js:453-465 | under relative switching, every number `k` selects workspace `RowStart(active) + k - 1` when it exists, and otherwise an undefined direction. For `k` up to the column count, that is column `k - 1` of the active workspace's row |
| `Bindings.ParseBindingName` | src/extension.js:424 | `<action>-to-workspace-<target>`, with dash-free parts, splits into that action and that target |
| `Bindings.GeneratedSwitchBinding` | src/extension.js:192-198 | every generated `switch-to-workspace-k` is a switch to workspace `k - 1` when that workspace exists |
| `Bindings.DirectionBinding` | src/extension.js:175-179 | `switch-to-workspace-<direction name>` is a switch one step in that direction |
| `GridShell.DestinationExists` | src/extension.js:489-515 | on a reconciled grid under the cap, a directed destination is an existing workspace, and an undefined one is the active workspace |
| `GridShell.DestinationIndex` | src/extension.js:493-502 | an index destination is used as given. A direction gives what `calculateWorkspace` gives: the -1 sentinel, an index below the cap, or the last workspace |
| `GridShell.ReconcileDistinct` | src/extension.js:1409-1426 | when the old ids are distinct and below the first fresh id, the reconciled ids are distinct and below the next unused id, so appended workspaces never repeat an existing one |
| `GridShell.Reconciled` | src/extension.js:1409-1426 | after reconciliation there are exactly `total` workspaces, the lower indices keep their workspaces, and the new ones are appended at the end |
| `GridShell.ReconcileIdempotent` | src/extension.js:1409-1426 | reconciling an already reconciled list changes nothing |
| `GridShell.ReconcileExamples` | src/extension.js:1409-1426 | 6 workspaces grow to 8 by appending two and keep 0-5. 8 shrink to 6 by dropping the two highest |
| `GridShell.ActiveAfter` | src/extension.js:1419-1425 | after removal the active index is below the new count, and unchanged if it was already below it |
| `GridShell.GridShell.ExportFunctionsAndConstants` | src/extension.js:1478-1505 | publishes the configured columns and the clamped rows |
| `GridShell.GridShell.ModifyNumWorkspaces` | src/extension.js:1386-1442 | the workspace list becomes `Reconciled(old list, rows * columns)`. The active index becomes `ActiveAfter(old active)`. The id counter advances by the number of workspaces appended. Workspace ids stay distinct throughout (`Valid`) |
| `GridShell.GridShell.ActionMoveWorkspace` | src/extension.js:489-515 | the active workspace becomes the destination, or stays put when the destination does not exist. An activation is requested exactly when the destination differs from the active index |
| `GridShell.GridShell.ShowWorkspaceSwitcher` | src/extension.js:405-487 | nothing happens without workspaces or with one. An explicit target is activated if it is not active and is displayed with the dummy Up direction. A direction goes through `ActionMoveWorkspace` without the scroll override. A missing target fails |
| `GridShell.GridShell.NWorkspacesChanged` | src/extension.js:1517-1522 | after a rows or columns change, the grid is the configured columns by the clamped rows. The host's list becomes `Reconciled(old list, rows * columns)`, with the active index `ActiveAfter(old active)` and the activation log untouched. When that grid fits under the cap, every direction names an existing workspace |
| `Version.ToInt32` | src/version.js:25-27 | ToInt32 gives the signed 32-bit value congruent to its input mod 2^32, and leaves 32-bit values unchanged |
| `Version.ShiftLeft8` | src/version.js:26 | `x << 8` is a signed 32-bit value congruent to `x * 256` mod 2^32, and NaN shifts to 0 |
| `Version.GetShellVersionId` | src/version.js:25-27 | the id is NaN exactly when the minor is, lies within 2^31 of the minor, and equals the minor when the major is NaN. `Version.VersionIdValue` and `Version.VersionIdOrder` give its value and order |
| `Version.VersionIdValue` | src/version.js:25-27 | for majors below 2^23 the id is `major * 256 + minor` |
| `Version.VersionIdOrder` | src/version.js:25-27 | with minors below 256, ids compare as (major, minor) pairs compare lexicographically |
| `Version.VersionIdInjective` | src/version.js:25-27 | with minors below 256, distinct versions get distinct ids |
| `Version.ParseInt` | src/version.js:20-21 | `parseInt` is NaN exactly when the string does not start with a digit, and otherwise the value of its leading digits |
| `Version.ParseIntFromNat` | src/version.js:20-21 | `parseInt` reads back the decimal form of a number |
| `Version.SplitVersion` | src/version.js:20-21 | the first two dot-separated components of "M.m[.x...]" are M and m |
| `Version.FromStringMatches` | src/version.js:19-23 | the id of "M.m", optionally followed by ".x" components, is `getShellVersionId(M, m)` |
| `Version.TwoDigits` | spec/versionSpec.js:26-33 | a two-digit number is written as its tens digit then its units digit |
| `Version.ShortVersionString` | spec/versionSpec.js:26-33 | a string "d.dd" has the numeric id of its major and minor |
| `Version.VersionSpecCases` | spec/versionSpec.js:3-34 | "3.28", "3.26", "2.20" and "2.48" have the ids of their numeric versions, 796 > 794, 560, 532 |
| `Version.UnreadableMajorIsZero` | src/version.js:19-27 | a major that `parseInt` cannot read becomes 0 under `<<`, so "x.m" has id m |
| `Version.GetShellVersionIdFromString` | src/version.js:19-23 | a string without a dot has a NaN id. The id is a number exactly when there is a second component that `parseInt` can read. `Version.FromStringMatches` gives its value |
| `LegacyGrid.IndexToRowCol` | workspace-grid@mathematical.coffee.gmail.com/extension.js:97-101 | with 4 columns, the cell of an index has a column in `[0, 4)` and satisfies `row * 4 + col == index` |
| `LegacyGrid.IndexRoundTrip` | workspace-grid@mathematical.coffee.gmail.com/extension.js:97-106 | every index converted to its cell and back is unchanged. There is no cap |
| `LegacyGrid.RowColToIndex` | workspace-grid@mathematical.coffee.gmail.com/extension.js:103-106 | every cell with a non-negative row and a column in range gives a non-negative index whose cell is that same cell. There is no cap |
| `LegacyGrid.StepClamps` | workspace-grid@mathematical.coffee.gmail.com/extension.js:191-204 | Left and Up never go below 0, Right never passes column 3, and Down never passes row 1. The other coordinate is unchanged, an unknown name stays put, and the target stays in the 2 x 4 grid |
| `LegacyGrid.StepTarget` | workspace-grid@mathematical.coffee.gmail.com/extension.js:191-205 | from inside the 2 x 4 grid, the step target is inside it. `LegacyGrid.StepClamps` gives the exact clamped cell |
| `LegacyGrid.RequestedWorkspaces` | workspace-grid@mathematical.coffee.gmail.com/extension.js:279-281 | the host is asked for 8 workspaces, and every step from one of them lands on one of them |
| `LegacyGrid.Move` | workspace-grid@mathematical.coffee.gmail.com/extension.js:205-215 | the popup shows the direction and the step target, which becomes active, exactly when the target is the active index or an existing workspace. Otherwise activating it fails with that target, and the active index is unchanged |
| `LegacyGrid.MoveAlwaysDisplays` | workspace-grid@mathematical.coffee.gmail.com/extension.js:191-215 | on the requested 8-workspace host every key displays an existing workspace |
| `LegacyGrid.LegacyScreen.MoveWorkspace` | workspace-grid@mathematical.coffee.gmail.com/extension.js:186-216 | the clamped step, computed in an aliased `[row, col]` array, gives `Move`'s outcome and active index. An activation is logged only when the active index changes |
| `LegacyGrid.LegacyScreen.ShowWorkspaceSwitcher` | workspace-grid@mathematical.coffee.gmail.com/extension.js:222-227 | with exactly one workspace nothing happens. Otherwise the binding name is the direction of `moveWorkspace` |

## Left out

- Thumbnail box layout, drag-and-drop, indicator tweening and both switcher popups are out. They are Clutter/St actor layout with floating-point scales and animation. The popup's `display(direction, index)` call is modelled only as the returned outcome.
- The `Main.overview.visible` test before showing the popup is out: it is host UI state. Outcomes are what the popup would show.
- The preference dialogs are out. Only their row and column range (1 to 36, src/prefs.js:84-100) appears, as `GridShell.SettingsInRange`.
- Keybinding installation and restoration, overview scroll patching, `Mainloop.idle_add`, settings signals and `enable`/`disable` are out. They are host glue with no computation of their own.
- `Meta.prefs_set_num_workspaces`, `override_workspace_layout`, `notify("n-workspaces")` and the dynamic-workspace switch in `modifyNumWorkspaces` are out. They are host calls that do not change the workspace list the model keeps: the source comments that the preference write has no effect under dynamic workspaces. In the first revision, the same preference write is modelled only as the requested count (`LegacyGrid.RequestedWorkspaces`).
- The `log` warning that `exportFunctionsAndConstants` writes when it clamps the rows is out: it is output only.
- The host workspace manager is not part of this model. Its `append_new_workspace`, `remove_workspace` and `activate` are methods on the model's own state. The model assumes that removing the active last workspace makes the host activate the one before it. The source leaves this choice to the host.
- The host may refuse to grow past its cap. That is not modelled: `ModifyNumWorkspaces` always reaches `rows * columns`.
- GridShell.GridShell.ShowWorkspaceSwitcher: handles only `switch-*` bindings. The `move-*` action moves a window between workspaces and is left out, because windows are not modelled. That covers its sticky-window and primary-monitor guards, `actionMoveWindow`, and the workspace insertion before index 0.
- Bindings.ClassifyTarget: only decimal digit strings count as numeric. JavaScript's other numeric forms (whitespace, signs, hex, exponents) never occur in the generated binding names.
- Bindings.DirectionNamed: matches the lower-case names only. The source upper-cases the target and indexes `Meta.MotionDirection`, which also has diagonal names that no binding uses.
- Version.ParseInt: reads leading decimal digits only. `parseInt`'s leading whitespace, sign and radix prefixes are not modelled. Fractions cannot arise, because `parseInt` reads only digits.
- Version.ParseInt: the model uses exact integers where JavaScript uses doubles. Rounding past 2^53 is not modelled: `parseInt("9007199254740993")` is 9007199254740992 in JavaScript. Nor is Infinity from digit strings of over about 309 digits, which `<<` turns into 0. Version strings and binding numbers up to 36 never reach these ranges.
- JsStrings.FromNat: writes every number in plain decimal. JavaScript writes numbers from 10^21 up in exponent form, which the model does not cover. Generated binding numbers stay at or below 36.
- Version.VersionIdOrder: proved for majors below 2^23 and minors below 256. Beyond those bounds the 32-bit shift wraps, or the minor spills into the major, and the order does not hold.
- Grid.NeighborStep: proved for an active index inside a grid that fits under the cap (`Grid.InGrid`). Outside such a grid, `get_neighbor` can return -1 or move Down to an upper row.
- Grid.IndexToRowCol: takes a non-negative index. Workspace indices are never negative. The model does not reproduce JavaScript's truncating `%` on negative numbers.
