/**
  The records the viewer reads from its store and the node/edge records it hands to the
  diagram widget. Field names follow the store columns and the widget's node/edge shape.
 */
module Graph {
  import opened Wrappers

  /** A value as JavaScript's `Number(...)` produces it; only NaN and finite values occur here. */
  datatype JsNumber = NaN | Num(value: real) {
    /** JavaScript truthiness: NaN and zero are falsy. */
    predicate Truthy() {
      Num? && value != 0.0
    }
  }

  /** A row of the `systems` table; `name` is the key every other table refers to. */
  datatype SystemRow = SystemRow(name: string, category: string)

  /** A row of the `system_hierarchy` table. */
  datatype HierarchyRow = HierarchyRow(parentId: string, childId: string)

  /**
    A row of the `interfaces_with` table; `id` is assigned by the store, and `directional` is a
    number (the seed data writes 1, the card writes whatever number the form holds).
   */
  datatype InterfaceRow = InterfaceRow(id: string, systemA: string, systemB: string,
                                       connectionType: string, directional: JsNumber)

  /** The randomly drawn look of a node: its position and background colour. */
  datatype Look = Look(x: real, y: real, background: string)

  /**
    A diagram node. `parentId` and `hidden` are optional fields of the widget's node
    (`None` is an absent field); `expandParent` is `false` when absent. `caption` is the widget's
    `data.label` (`label` is a Dafny keyword).
   */
  datatype Node = Node(id: string, caption: string, category: string, parentId: Option<string>,
                       expandParent: bool, hidden: Option<bool>, look: Look)

  /** JavaScript's `if (node.parentId)`: the field is present and not the empty string. */
  predicate HasParent(n: Node) {
    n.parentId.Some? && n.parentId.value != ""
  }

  /** What the interface editor stores on an edge it has rewritten. */
  datatype EdgeData = EdgeData(directional: JsNumber, connectionType: string)

  /** A diagram edge; `caption` is its `label`, `hidden` and `data` are optional fields. */
  datatype Edge = Edge(id: string, source: string, target: string, caption: string,
                       animated: bool, hidden: Option<bool>, data: Option<EdgeData>)

  /** Whether the widget draws an element: only an explicit `hidden: true` hides it. */
  predicate NodeShown(n: Node) {
    n.hidden != Some(true)
  }

  predicate EdgeShown(e: Edge) {
    e.hidden != Some(true)
  }

  /** The outcome of one remote write: the store either reports an error or it does not. */
  datatype StoreReply = Done | StoreError
}
