/** The front-end graph state: the graph as loaded, the derived view, and the actions on the state. */
module GraphTypes {
  import opened Outcomes

  datatype UIPhase = Idle | Loading | Ready

  datatype Theme = Light | Dark

  /** A node of the loaded graph: a book, or a chapter of the book `bookId`. */
  datatype GraphNode =
    | BookNode(id: string, size: Option<real>)
    | ChapterNode(id: string, bookId: string, title: Option<string>)

  datatype GraphEdge = GraphEdge(source: string, target: string, score: real, kind: Option<string>)

  datatype Graph = Graph(nodes: seq<GraphNode>, edges: seq<GraphEdge>)

  datatype NodeKind = BookKind | ChapterKind

  /** A node of the view; a position that is `null` or missing is `None`. */
  datatype ViewNode = ViewNode(
    id: string,
    kind: NodeKind,
    bookId: string,
    labelText: string,
    color: string,
    chapterId: Option<string>,
    chapterCount: Option<real>,
    x: Option<real>,
    y: Option<real>,
    fx: Option<real>,
    fy: Option<real>)

  /** A link of the view, between node ids. */
  datatype ViewLink = ViewLink(source: string, target: string, score: real)

  datatype Transform = Transform(x: real, y: real, k: real)

  datatype Dimensions = Dimensions(width: real, height: real)

  /** The typed actions; `Unknown` is any other `type` reaching the default branch. */
  datatype Action =
    | LoadGraphStart
    | LoadGraphSuccess(graph: Graph)
    | ToggleBook(bookId: string)
    | SetHoveredNode(node: Option<ViewNode>)
    | SetTransform(transform: Transform)
    | SetTheme(theme: Theme)
    | Resize(width: real, height: real)
    | Unknown(kind: string)

  datatype CoreState = CoreState(
    uiPhase: UIPhase,
    graph: Option<Graph>,
    expandedBooks: set<string>,
    dimensions: Dimensions,
    nodes: seq<ViewNode>,
    links: seq<ViewLink>,
    transform: Transform,
    hoveredNode: Option<ViewNode>,
    theme: Theme)

  /** `Partial<CoreState>`: each field present (`Some`) or absent (`None`). */
  datatype PartialState = PartialState(
    uiPhase: Option<UIPhase>,
    graph: Option<Option<Graph>>,
    expandedBooks: Option<set<string>>,
    dimensions: Option<Dimensions>,
    nodes: Option<seq<ViewNode>>,
    links: Option<seq<ViewLink>>,
    transform: Option<Transform>,
    hoveredNode: Option<Option<ViewNode>>,
    theme: Option<Theme>)

  const NoChange := PartialState(None, None, None, None, None, None, None, None, None)

  /** The names of the fields a partial state carries. */
  function FieldsOf(p: PartialState): set<string> {
    (if p.uiPhase.Some? then {"uiPhase"} else {})
    + (if p.graph.Some? then {"graph"} else {})
    + (if p.expandedBooks.Some? then {"expandedBooks"} else {})
    + (if p.dimensions.Some? then {"dimensions"} else {})
    + (if p.nodes.Some? then {"nodes"} else {})
    + (if p.links.Some? then {"links"} else {})
    + (if p.transform.Some? then {"transform"} else {})
    + (if p.hoveredNode.Some? then {"hoveredNode"} else {})
    + (if p.theme.Some? then {"theme"} else {})
  }

  /** `{...state, ...partial}`: how a caller applies a reducer's result. */
  function Merge(s: CoreState, p: PartialState): CoreState {
    CoreState(
      p.uiPhase.GetOr(s.uiPhase),
      p.graph.GetOr(s.graph),
      p.expandedBooks.GetOr(s.expandedBooks),
      p.dimensions.GetOr(s.dimensions),
      p.nodes.GetOr(s.nodes),
      p.links.GetOr(s.links),
      p.transform.GetOr(s.transform),
      p.hoveredNode.GetOr(s.hoveredNode),
      p.theme.GetOr(s.theme))
  }
}
