/** Clicking a node: selecting it, or unselecting it. */
module NodeClick {
  import opened Common
  import opened Elements

  /** The store callback a click invokes, with its argument. */
  datatype ClickAction = AddSelected(nodes: seq<Node>) | RemoveSelected(nodes: seq<Node>) | NoAction

  /** Vue's `ref` holding `nodesSelectionActive`. */
  class SelectionFlag {
    var value: bool

    constructor(value: bool)
      ensures this.value == value
    {
      this.value := value;
    }
  }

  /** What a click asks of the store: an unselected node is added to the
      selection; a selected one is removed when `unselect` or multi-selection
      is active; otherwise nothing. */
  function ClickActionFor(node: Node, multiSelectionActive: bool, unselect: bool): (r: ClickAction)
    ensures !IsTrue(node.selected) ==> r == AddSelected([node])
    ensures IsTrue(node.selected) && (unselect || multiSelectionActive) ==> r == RemoveSelected([node])
    ensures IsTrue(node.selected) && !unselect && !multiSelectionActive ==> r == NoAction
  {
    if !IsTrue(node.selected) then AddSelected([node])
    else if unselect || (IsTrue(node.selected) && multiSelectionActive) then RemoveSelected([node])
    else NoAction
  }

  /** `handleNodeClick(node, multiSelectionActive, addSelectedNodes,
      removeSelectedNodes, nodesSelectionActive, unselect = false,
      nodeEl)`: the selection box is always dismissed. */
  method HandleNodeClick(node: Node, multiSelectionActive: bool, nodesSelectionActive: SelectionFlag, unselect: bool)
    returns (action: ClickAction)
    modifies nodesSelectionActive
    ensures !nodesSelectionActive.value
    ensures action == ClickActionFor(node, multiSelectionActive, unselect)
  {
    nodesSelectionActive.value := false;
    if !IsTrue(node.selected) {
      action := AddSelected([node]);
    } else if unselect || (IsTrue(node.selected) && multiSelectionActive) {
      action := RemoveSelected([node]);
    } else {
      action := NoAction;
    }
  }

  /** The effect of the callbacks on the clicked node's flag. */
  function Apply(node: Node, action: ClickAction): Node {
    match action
    case AddSelected(_) => node.(selected := Some(true))
    case RemoveSelected(_) => node.(selected := Some(false))
    case NoAction => node
  }

  /** With multi-selection active, a click toggles a node's selection, so
      two clicks leave it as it was (up to an undefined flag read as
      unselected). */
  lemma ClickToggles(node: Node)
    ensures IsTrue(Apply(node, ClickActionFor(node, true, false)).selected) == !IsTrue(node.selected)
    ensures var once := Apply(node, ClickActionFor(node, true, false));
      IsTrue(Apply(once, ClickActionFor(once, true, false)).selected) == IsTrue(node.selected)
  {
  }

  /** Without multi-selection or `unselect`, clicking never unselects. */
  lemma ClickKeepsSelected(node: Node)
    ensures IsTrue(node.selected) ==> IsTrue(Apply(node, ClickActionFor(node, false, false)).selected)
    ensures IsTrue(Apply(node, ClickActionFor(node, false, false)).selected)
  {
  }
}
