/**
  A drop-down menu whose menu view is a one-section table listing menu cells.
  Selecting a row clears every cell's accessory, checks the chosen cell when
  it shows checkmarks, sends the cell's action and may hide the menu.

  A cell is a record; its `id` stands for the identity of the cell object, so
  one cell object listed at two rows is two slots with the same `id` and the
  same contents (`Coherent`). Changing a cell changes every slot that holds it.
*/
module TableMenu {
  import opened Wrappers
  import opened Menu

  /** The accessory types a table cell can show. */
  datatype AccessoryType = NoAccessory | DisclosureIndicator | DetailDisclosureButton | Checkmark | DetailButton

  type CellId = nat
  /** An action message (an Objective-C selector). */
  type Selector = string
  /** The object an action is sent to. */
  type TargetId = nat

  datatype MenuCell = MenuCell(
    id: CellId,
    accessoryType: AccessoryType,
    showsCheckmark: bool,
    menuAction: Option<Selector>,
    menuTarget: Option<TargetId>)

  /** An action message sent to the application on behalf of a cell. */
  datatype SentAction = SentAction(action: Selector, target: Option<TargetId>, sender: CellId)

  /** Why selectMenuCell(_:) refuses a cell. */
  datatype SelectError = CellNotInMenu

  /** Slots holding the same cell object hold the same record. */
  ghost predicate Coherent(cells: seq<MenuCell>)
  {
    forall i, j :: 0 <= i < |cells| && 0 <= j < |cells| && cells[i].id == cells[j].id ==> cells[i] == cells[j]
  }

  /** Two records of one cell that may differ only in the accessory shown. */
  predicate SameExceptAccessory(a: MenuCell, b: MenuCell)
  {
    a.id == b.id && a.showsCheckmark == b.showsCheckmark && a.menuAction == b.menuAction
    && a.menuTarget == b.menuTarget
  }

  // ---------------------------------------------------------------------------
  // Selection, as a function of the cells
  // ---------------------------------------------------------------------------

  /** The `for` loop of tableView(_:didSelectRowAt:): every cell loses its accessory. */
  function ClearAccessories(cells: seq<MenuCell>): seq<MenuCell>
  {
    seq(|cells|, k requires 0 <= k < |cells| => cells[k].(accessoryType := NoAccessory))
  }

  /** Setting the accessory of the cell object `id`, seen in every slot that holds it. */
  function SetAccessory(cells: seq<MenuCell>, id: CellId, accessory: AccessoryType): seq<MenuCell>
  {
    seq(|cells|, k requires 0 <= k < |cells| =>
      if cells[k].id == id then cells[k].(accessoryType := accessory) else cells[k])
  }

  /** The accessory a selected cell ends with. */
  function SelectedAccessory(cell: MenuCell): AccessoryType
  {
    if cell.showsCheckmark then Checkmark else NoAccessory
  }

  /**
    The cells after selecting `row`: the chosen cell carries a checkmark if and
    only if it shows checkmarks, every other cell carries no accessory, and
    nothing but accessories changes.
  */
  function SelectRow(cells: seq<MenuCell>, row: nat): (selected: seq<MenuCell>)
    requires row < |cells|
    ensures |selected| == |cells|
    ensures forall k :: 0 <= k < |cells| ==> SameExceptAccessory(selected[k], cells[k])
    ensures forall k :: 0 <= k < |cells| && cells[k].id != cells[row].id ==>
              selected[k].accessoryType == NoAccessory
    ensures forall k :: 0 <= k < |cells| && cells[k].id == cells[row].id ==>
              (selected[k].accessoryType == Checkmark <==> cells[row].showsCheckmark) &&
              (selected[k].accessoryType == Checkmark || selected[k].accessoryType == NoAccessory)
  {
    SetAccessory(ClearAccessories(cells), cells[row].id, SelectedAccessory(cells[row]))
  }

  /** The cell objects that carry a checkmark. */
  function CheckedCells(cells: seq<MenuCell>): set<CellId>
  {
    set k | 0 <= k < |cells| && cells[k].accessoryType == Checkmark :: cells[k].id
  }

  /** The action a selection sends: the cell's action, if it has one. */
  function ActionsSent(cell: MenuCell): seq<SentAction>
  {
    match cell.menuAction
    case None => []
    case Some(action) => [SentAction(action, cell.menuTarget, cell.id)]
  }

  /** Whether a selection hides the menu. */
  predicate HidesAfterSelect(cell: MenuCell, hidesMenuOnSelect: bool)
  {
    cell.menuAction.Some? && hidesMenuOnSelect
  }

  /**
    `index(of:)` by identity: the first row holding the cell `id`, or None
    when no row holds it.
  */
  function FirstIndexOf(cells: seq<MenuCell>, id: CellId): (index: Option<nat>)
    ensures index.Some? ==> index.value < |cells| && cells[index.value].id == id
    ensures index.Some? ==> forall j :: 0 <= j < index.value ==> cells[j].id != id
    ensures index.None? <==> forall j :: 0 <= j < |cells| ==> cells[j].id != id
  {
    if cells == [] then None
    else if cells[0].id == id then Some(0)
    else
      match FirstIndexOf(cells[1..], id)
      case None => None
      case Some(i) => Some(i + 1)
  }

  // ---------------------------------------------------------------------------
  // Properties of selection
  // ---------------------------------------------------------------------------

  /**
    After a selection at most one cell carries a checkmark: the chosen one,
    and only when it shows checkmarks.
  */
  lemma SelectRowChecksAtMostOneCell(cells: seq<MenuCell>, row: nat)
    requires row < |cells|
    ensures CheckedCells(SelectRow(cells, row)) ==
              (if cells[row].showsCheckmark then {cells[row].id} else {})
    ensures |CheckedCells(SelectRow(cells, row))| <= 1
  {
  }

  /** Selection keeps the cells coherent: a cell object shows one accessory in all its rows. */
  lemma SelectRowKeepsCoherent(cells: seq<MenuCell>, row: nat)
    requires row < |cells| && Coherent(cells)
    ensures Coherent(SelectRow(cells, row))
  {
  }

  /**
    The outcome of a selection does not depend on the accessories shown before:
    two lists that differ only in accessories select to the same list.
  */
  lemma SelectRowForgetsAccessories(a: seq<MenuCell>, b: seq<MenuCell>, row: nat)
    requires row < |a| == |b|
    requires forall k :: 0 <= k < |a| ==> SameExceptAccessory(a[k], b[k])
    ensures SelectRow(a, row) == SelectRow(b, row)
  {
  }

  /** Selecting the same row twice is the same as selecting it once. */
  lemma SelectRowIdempotent(cells: seq<MenuCell>, row: nat)
    requires row < |cells|
    ensures SelectRow(SelectRow(cells, row), row) == SelectRow(cells, row)
  {
  }

  // ---------------------------------------------------------------------------
  // The table menu
  // ---------------------------------------------------------------------------

  class DropDownTableMenu {
    /** The DropDownMenu this table menu is built on. */
    const menu: DropDownMenu
    var menuCells: seq<MenuCell>
    var hidesMenuOnSelect: bool
    /** The actions sent to the application, oldest first. */
    var sentActions: seq<SentAction>

    ghost predicate Valid()
      reads this, menu
    {
      Coherent(menuCells) && menu.Valid()
    }

    /** `init(frame:)`: a hidden menu whose menu view is a table as high as the frame. */
    constructor (frameHeight: real, viewId: ViewId, tableViewId: ViewId)
      ensures Valid() && fresh(menu)
      ensures menuCells == [] && !hidesMenuOnSelect && sentActions == []
      ensures menu.isHidden && menu.viewId == viewId && menu.menuViewId == tableViewId
    {
      menu := new DropDownMenu(frameHeight, frameHeight, viewId, tableViewId);
      menuCells := [];
      hidesMenuOnSelect := false;
      sentActions := [];
    }

    /** `numberOfSections(in:)`: the table has a single section. */
    function NumberOfSections(): int
    {
      1
    }

    /** `tableView(_:numberOfRowsInSection:)`: one row per menu cell, whatever the section. */
    function NumberOfRows(section: int): int
      reads this
    {
      |menuCells|
    }

    /** `tableView(_:cellForRowAt:)`: row `row` shows the cell listed at `row`. */
    function CellForRow(row: int): MenuCell
      reads this
      requires 0 <= row < NumberOfRows(0)
    {
      menuCells[row]
    }

    /**
      `tableView(_:shouldHighlightRowAt:)`: a row highlights exactly when
      selecting it sends an action.
    */
    function ShouldHighlightRow(row: int): (highlight: bool)
      reads this
      requires 0 <= row < |menuCells|
      ensures highlight <==> ActionsSent(menuCells[row]) != []
    {
      menuCells[row].menuAction != None
    }

    /**
      `tableView(_:didSelectRowAt:)`: clears every accessory, checks the chosen
      cell if it shows checkmarks, then, if the cell has an action, sends it
      and, when `hidesMenuOnSelect` is set, begins hiding the menu. Returns
      whether a hide animation was started whose completion is still to run.
      Only accessories change: the rows, their cells otherwise and their
      highlighting stay as they were.
    */
    method DidSelectRow(row: int) returns (hidePending: bool)
      requires Valid() && 0 <= row < |menuCells|
      modifies this`menuCells, this`sentActions
      modifies menu`backgroundView, menu`contentOriginY, menu`isHidden, menu`slideStartY
      ensures Valid()
      ensures menuCells == SelectRow(old(menuCells), row)
      ensures forall s :: NumberOfRows(s) == old(NumberOfRows(s))
      ensures forall r :: 0 <= r < NumberOfRows(0) ==>
                SameExceptAccessory(CellForRow(r), old(CellForRow(r))) &&
                ShouldHighlightRow(r) == old(ShouldHighlightRow(r))
      ensures sentActions == old(sentActions) + ActionsSent(old(menuCells)[row])
      ensures hidePending == (HidesAfterSelect(old(menuCells)[row], hidesMenuOnSelect) && !old(menu.isHidden))
      ensures old(menu.isHidden) ==> unchanged(menu)
      ensures !hidePending ==> unchanged(menu)
      ensures hidePending ==> !menu.isHidden
      ensures hidePending ==>
                menu.slideStartY == HideStartOriginY(menu.direction, menu.container.value.height,
                                                     menu.contentHeight, menu.visibleContentInsetTop)
                && menu.contentOriginY == HiddenOriginY(menu.direction, menu.container.value.height,
                                                        menu.contentHeight, menu.hiddenContentOffset)
                && menu.backgroundView == WithAlpha(old(menu.backgroundView), 0.0)
    {
      var cell := menuCells[row];
      for k := 0 to |menuCells|
        invariant |menuCells| == |old(menuCells)| && sentActions == old(sentActions) && unchanged(menu)
        invariant forall j :: 0 <= j < k ==> menuCells[j] == old(menuCells)[j].(accessoryType := NoAccessory)
        invariant forall j :: k <= j < |menuCells| ==> menuCells[j] == old(menuCells)[j]
      {
        menuCells := menuCells[k := menuCells[k].(accessoryType := NoAccessory)];
      }
      menuCells := SetAccessory(menuCells, cell.id, SelectedAccessory(cell));
      hidePending := false;
      if cell.menuAction == None {
        return;
      }
      sentActions := sentActions + [SentAction(cell.menuAction.value, cell.menuTarget, cell.id)];
      if hidesMenuOnSelect {
        hidePending := menu.BeginHide();
      }
    }

    /**
      `selectMenuCell(_:)`: selects the first row holding the cell, as
      DidSelectRow does; a cell that is not in the menu is refused and nothing
      changes.
    */
    method SelectMenuCell(cell: CellId) returns (result: Result<nat, SelectError>, hidePending: bool)
      requires Valid()
      modifies this`menuCells, this`sentActions
      modifies menu`backgroundView, menu`contentOriginY, menu`isHidden, menu`slideStartY
      ensures Valid()
      ensures result.Err? <==> forall k :: 0 <= k < |old(menuCells)| ==> old(menuCells)[k].id != cell
      ensures result.Err? ==> unchanged(this) && unchanged(menu) && !hidePending
      ensures result.Ok? ==> result.value < |old(menuCells)| && old(menuCells)[result.value].id == cell
      ensures result.Ok? ==> forall k :: 0 <= k < result.value ==> old(menuCells)[k].id != cell
      ensures result.Ok? ==> menuCells == SelectRow(old(menuCells), result.value)
      ensures forall s :: NumberOfRows(s) == old(NumberOfRows(s))
      ensures forall r :: 0 <= r < NumberOfRows(0) ==>
                SameExceptAccessory(CellForRow(r), old(CellForRow(r))) &&
                ShouldHighlightRow(r) == old(ShouldHighlightRow(r))
      ensures result.Ok? ==> sentActions == old(sentActions) + ActionsSent(old(menuCells)[result.value])
      ensures result.Ok? ==>
                (hidePending == (HidesAfterSelect(old(menuCells)[result.value], hidesMenuOnSelect)
                                 && !old(menu.isHidden)))
      ensures old(menu.isHidden) ==> unchanged(menu)
      ensures !hidePending ==> unchanged(menu)
      ensures hidePending ==> !menu.isHidden
      ensures hidePending ==>
                menu.slideStartY == HideStartOriginY(menu.direction, menu.container.value.height,
                                                     menu.contentHeight, menu.visibleContentInsetTop)
                && menu.contentOriginY == HiddenOriginY(menu.direction, menu.container.value.height,
                                                        menu.contentHeight, menu.hiddenContentOffset)
                && menu.backgroundView == WithAlpha(old(menu.backgroundView), 0.0)
    {
      match FirstIndexOf(menuCells, cell)
      case None =>
        result, hidePending := Err(CellNotInMenu), false;
      case Some(index) =>
        hidePending := DidSelectRow(index);
        result := Ok(index);
    }
  }

  /**
    A selection that hides the menu leaves it visible until the completion of
    the hide animation runs; the completion then hides it at its hidden position.
  */
  method SelectThenFinishHide(m: DropDownTableMenu, row: nat)
    requires m.Valid() && row < |m.menuCells| && !m.menu.isHidden
    requires m.hidesMenuOnSelect && m.menuCells[row].menuAction.Some?
    modifies m`menuCells, m`sentActions, m.menu
    ensures m.Valid() && m.menu.isHidden && m.menu.container == old(m.menu.container)
    ensures m.menu.contentOriginY == HiddenOriginY(m.menu.direction, m.menu.container.value.height,
                                                   m.menu.contentHeight, m.menu.hiddenContentOffset)
  {
    var hidePending := m.DidSelectRow(row);
    assert hidePending && !m.menu.isHidden;
    m.menu.CompleteHide();
  }

  /**
    However often rows are selected, at most one cell object carries a
    checkmark afterwards.
  */
  method SelectTwice(m: DropDownTableMenu, first: nat, second: nat)
    requires m.Valid() && first < |m.menuCells| && second < |m.menuCells|
    modifies m, m.menu
    ensures m.Valid()
    ensures |CheckedCells(m.menuCells)| <= 1
    ensures m.menuCells == SelectRow(old(m.menuCells), second)
  {
    var firstPending := m.DidSelectRow(first);
    ghost var afterFirst := m.menuCells;
    var secondPending := m.DidSelectRow(second);
    SelectRowChecksAtMostOneCell(afterFirst, second);
    SelectRowForgetsAccessories(SelectRow(old(m.menuCells), first), old(m.menuCells), second);
  }
}
