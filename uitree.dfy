/**
 * An immutable snapshot of the accessibility tree. Every element has a
 * control type (`ControlTypeName`), a name, a class name, an automation id,
 * an optional bounding rectangle and, when enumerating them succeeds, the ids
 * of its children. Children are ids into the same snapshot, so the graph may
 * be cyclic. An id outside the snapshot is an element that no longer exists:
 * every read of it fails, and the reads below give the defaults the source's
 * `safe_get`-style helpers give (`""`, no rectangle, no children), and its
 * control type matches none of the types the code looks for.
 */
module UiTree {
  import opened Text
  import opened Geometry

  /**
   * The `ControlTypeName` values the code compares against; every other
   * control type is `OtherControl`.
   */
  datatype ControlType =
    | WindowControl | ButtonControl | TextControl | ListItemControl
    | ListControl | TableControl | CustomControl | EditControl | OtherControl

  datatype Node = Node(
    kind: ControlType,
    name: string,
    cls: string,
    aid: string,
    rect: Option<Rect>,
    children: Option<seq<nat>>)   // None: GetChildren() raises

  type Tree = seq<Node>

  /** What the desktop shows at one moment: the tree and the ids of the root's top-level windows. */
  datatype Screen = Screen(tree: Tree, windows: seq<nat>)

  predicate Exists(t: Tree, id: nat) { id < |t| }

  function KindOf(t: Tree, id: nat): ControlType { if id < |t| then t[id].kind else OtherControl }

  function NameOf(t: Tree, id: nat): string { if id < |t| then t[id].name else "" }

  function ClassOf(t: Tree, id: nat): string { if id < |t| then t[id].cls else "" }

  function AidOf(t: Tree, id: nat): string { if id < |t| then t[id].aid else "" }

  function RectOf(t: Tree, id: nat): Option<Rect> { if id < |t| then t[id].rect else None }

  function ChildrenOf(t: Tree, id: nat): Option<seq<nat>> { if id < |t| then t[id].children else None }

  /** `for ch in cur.GetChildren()` inside a `try`: a failed enumeration yields nothing. */
  function ChildrenOrEmpty(t: Tree, id: nat): seq<nat> {
    match ChildrenOf(t, id)
    case None => []
    case Some(cs) => cs
  }

  /** Result of a call that, in the source, may let an exception from the tree escape. */
  datatype Call<+T> = Raised | Returned(value: T)
}
