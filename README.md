# DropDownMenuKit in Dafny

A model of the two pieces of logic in DropDownMenuKit, a UIKit drop-down menu widget:

- **`DropDownMenu`** (module `Menu`, `drop_down_menu.dfy`). An overlay view that slides its content view in from the top (`Down`) or the bottom (`Up`) edge of a container, and fades a background view behind it. The class keeps the fields that `show()`, `hide()` and `layoutSubviews()` read or update:
  - the hidden flag;
  - the content view's vertical origin and height;
  - the menu height;
  - the insets and the hidden offset;
  - the optional background view.

  Pure functions give the positions each operation moves the content to. `hide()` is split into two steps: `BeginHide` (the guard, the start position and the animation block) and `CompleteHide` (the completion that sets `isHidden`). `Hide` runs both. A ghost field `slideStartY` records where the last slide animation started, because the animation block overwrites that position at once.
- **`DropDownTableMenu`** (module `TableMenu`, `drop_down_table_menu.dfy`). A menu whose menu view is a one-section table of cells.
  - Selecting a row clears every cell's accessory in a loop, then checks the chosen cell if it shows checkmarks.
  - It then sends the cell's action, if the cell has one, and begins hiding the menu when the cell has an action, `hidesMenuOnSelect` is set and the menu is visible. The selection returns while the hide animation runs, so `DidSelectRow` reports that the completion is pending; the menu becomes hidden when `CompleteHide` runs.
  - `SelectRow` specifies the cells after a selection. The method `DidSelectRow` is proved against it.
  - The data source (`NumberOfSections`, `NumberOfRows`, `CellForRow`, `ShouldHighlightRow`) reads the cells. A selection keeps the row count, each row's cell apart from its accessory, and each row's highlighting.

Cells are records. A cell's `id` stands for the identity of the cell object. `index(of:)` compares by identity, and one object can appear at several rows: the predicate `Coherent` keeps every slot of one object equal, and a change to a cell is applied to every slot that holds it.

Geometry is exact: `CGFloat` is `real`. The container's frame height and bounds height are one value, `ContainerView.height`. `UIView.animate` is read as "apply the assignments of the animation block".

The object invariant `DropDownMenu.Valid()` says that a visible menu has a container. It holds because of the source's own rules:
- the initialiser hides the menu;
- `show()` demands a container;
- the `container` observer unwraps the new value, so a container cannot be unset.

With this invariant, `hide()` in the `Up` direction can always read the container height.

The code does two things that are modelled as written:

- For `Up`, `hide()` starts its slide at container height − content height − `visibleContentInsetTop`. `show()` ends at the same expression with `visibleContentInsetBottom`. The contract of `HideStartOriginY` states that the two positions agree exactly when the direction is `Down` or the two insets are equal.
- For `Up`, `layoutSubviews()` computes the content origin from the content height as it was before the layout. It updates the height afterwards. `LayoutTwice` shows that a second layout settles the content at its shown position.

The code promises at most one checked cell after a selection, and none when the chosen cell does not show checkmarks. `SelectRowChecksAtMostOneCell` states exactly that.

## Model

| member | source | states |
|---|---|---|
| `Menu.IsDescendantIffOnAncestry` | DropDownMenu.swift:139 | walking up the superview chain (`isDescendant(of:)`) finds a view exactly when it is on the view's ancestry path, itself included |
| `Menu.DropDownMenu.ShouldReceiveTouch` | DropDownMenu.swift:133-140 | the background tap is accepted iff there is no touched view or the menu view is not among the touched view's ancestors; the recogniser must belong to this menu |
| `Menu.ShownOriginY` | DropDownMenu.swift:164-169 | where show() leaves the content: content no higher than the visible height lies wholly between the top and the bottom inset |
| `Menu.HiddenOriginY` | DropDownMenu.swift:195-200 | where hide() leaves the content and show() starts it: with a non-negative content height and hidden offset the content lies wholly above the container's top or below its bottom |
| `Menu.HideStartOriginY` | DropDownMenu.swift:181-186 | hide()'s start position, computed with `visibleContentInsetTop` for `Up`, equals show()'s end iff the direction is `Down` or the top and bottom insets are equal |
| `Menu.LaidOutMenuHeight` | DropDownMenu.swift:119-122 | the laid-out menu height is the menu content height capped by the visible height between the insets: at most both, and equal to one of them |
| `Menu.LaidOutContentFitsVisibleBand` | DropDownMenu.swift:112-123 | content of the laid-out height, at its shown position, lies between the top and bottom insets |
| `Menu.DropDownMenu.constructor` | DropDownMenu.swift:77-100 | a new menu is hidden and has no container; its content fills the frame; the menu content height is the menu view's height; insets and offset are 0 and the background alpha is 1 |
| `Menu.DropDownMenu.LayoutSubviews` | DropDownMenu.swift:108-124 | origin = shown position computed with the pre-layout content height; menu height = capped content height; content height = menu height; background moved to the top inset and sized to the visible height; nothing else changes |
| `Menu.DropDownMenu.Show` | DropDownMenu.swift:142-173 | needs a container; a visible menu is unchanged; a hidden one becomes visible, slides from the hidden position to the shown position, and ends with background alpha `backgroundAlpha` |
| `Menu.DropDownMenu.BeginHide` | DropDownMenu.swift:175-202 | a hidden menu is unchanged and no completion is pending; a visible one stays visible, slides from the hide start to the hidden position, and ends with background alpha 0 |
| `Menu.DropDownMenu.CompleteHide` | DropDownMenu.swift:203-205 | the completion hides the menu and keeps the invariant |
| `Menu.DropDownMenu.Hide` | DropDownMenu.swift:175-206 | after the animation and its completion the menu is hidden, at the hidden position, with background alpha 0; an already hidden menu is unchanged |
| `Menu.ShowThenHide` | DropDownMenu.swift:142-206 | show() then hide() returns the content to where show() started it; the hide slide starts where the show slide ended when `Down` or the insets agree |
| `Menu.ShowDuringHideIsLost` | DropDownMenu.swift:145-147 | a show() issued while a hide animation runs does nothing, and the completion still hides the menu |
| `Menu.LayoutTwice` | DropDownMenu.swift:112-123 | two layouts with unchanged inputs leave the content at the laid-out height and exactly at its shown position |
| `TableMenu.SelectRow` | DropDownTableMenu.swift:79-85 | after selecting a row, the chosen cell has a checkmark iff it shows checkmarks (no accessory otherwise); every other cell has no accessory; length, order and all other fields are unchanged |
| `TableMenu.SelectRowChecksAtMostOneCell` | DropDownTableMenu.swift:47-50 | after a selection the checked cells are exactly {chosen cell} if it shows checkmarks, else none, so at most one |
| `TableMenu.SelectRowKeepsCoherent` | DropDownTableMenu.swift:82-85 | a cell listed at several rows shows the same accessory at all of them after a selection |
| `TableMenu.SelectRowForgetsAccessories` | DropDownTableMenu.swift:82-84 | the result of a selection does not depend on the accessories shown before it |
| `TableMenu.SelectRowIdempotent` | DropDownTableMenu.swift:79-85 | selecting the same row twice gives the same cells as selecting it once |
| `TableMenu.FirstIndexOf` | DropDownTableMenu.swift:52 | `index(of:)` returns the first row holding the cell, or nothing iff no row holds it |
| `TableMenu.DropDownTableMenu.constructor` | DropDownTableMenu.swift:24-32 | a new table menu has no cells, does not hide on select, has sent nothing, and its menu is hidden |
| `TableMenu.DropDownTableMenu.ShouldHighlightRow` | DropDownTableMenu.swift:75-77 | a row is highlightable iff selecting it sends an action, i.e. iff its cell has a menu action |
| `TableMenu.DropDownTableMenu.DidSelectRow` | DropDownTableMenu.swift:79-98 | cells become `SelectRow` of the old cells; the row count, each row's cell apart from its accessory, and its highlighting are unchanged; the cell's action is sent iff it has one; a hide is begun (menu at the hidden position, background alpha 0, completion pending) iff the cell has an action, `hidesMenuOnSelect` holds and the menu is visible; otherwise the menu is untouched |
| `TableMenu.DropDownTableMenu.SelectMenuCell` | DropDownTableMenu.swift:51-59 | a cell not in the menu is an error and changes nothing; otherwise the first row holding the cell is selected with all of `DidSelectRow`'s effects on the cells, the data source, the actions sent and the menu |
| `TableMenu.SelectThenFinishHide` | DropDownTableMenu.swift:95-97 | a hiding selection leaves a visible menu visible until the hide completion runs, which then hides it at the hidden position |
| `TableMenu.SelectTwice` | DropDownTableMenu.swift:47-50 | after two selections at most one cell carries a checkmark, and the cells are as if only the second selection had happened |

## Left out

- View hierarchy work is not modelled: the `container` and `backgroundView` observers, `addSubview`, autoresizing masks and gesture-recogniser registration. Setting `container` or `backgroundView` is a plain field assignment.
- `tap(_:)` only forwards to the delegate, which is foreign code.
- `setNeedsLayout`, `reloadData`, `selectRow(at:)` and `deselectRow(at:)` have no effect in the model.
- Animation timing (duration, delay, damping, velocity) is left out. Only the assignments of each animation block and the hide completion are modelled. The background's intermediate alpha of 0 in `show()` is not recorded, only its final alpha.
- `UIApplication.shared.sendAction` is foreign. Each call is recorded as a `SentAction` entry in `sentActions`.
- `menuContentSize` of the table menu reads the table view's content size. It is the input field `menuContentHeight`, set by the caller.
- `init(coder:)` only stops the program.
- `SelectMenuCell`: a cell that is not in the menu stops the program (`fatalError`); the model returns `Err(CellNotInMenu)` and leaves the state unchanged instead, so a caller in the model can continue where the program cannot.
- The container's `frame.height` and `bounds.height` are one value, `ContainerView.height`. A transformed container, where the two differ, is not modelled.
- Floating-point rounding of `CGFloat` is left out; the model uses exact reals.
- Only the vertical axis is modelled. Widths and horizontal origins are never changed by the modelled code.
- Direct writes to the inherited `UIView.isHidden` by clients are left out; the menu changes it only through `show()` and `hide()`.
- A `container` assignment of nil crashes in its observer, so the model never has one.
- Example/ViewController.swift is not part of this model. It only configures the menus, and `statusBarHeight()` reads live application state.
