/** What `buildView` derives from the loaded graph: filters, per-book chapter counts, book colours,
    carried-over positions, and the nodes and links of the view. */
module ViewSpec {
  import opened Outcomes
  import opened GraphTypes
  import opened Sequences

  const BookColors: seq<string> := ["#3b82f6", "#22c55e", "#f59e0b", "#ef4444", "#8b5cf6"]

  /** `nodes.filter(n => n.type === "book")` */
  function BooksOf(nodes: seq<GraphNode>): (r: seq<GraphNode>)
    ensures forall n | n in r :: n.BookNode? && n in nodes
    ensures forall n | n in nodes && n.BookNode? :: n in r
  {
    if nodes == [] then []
    else
      var last := nodes[|nodes| - 1];
      BooksOf(nodes[..|nodes| - 1]) + (if last.BookNode? then [last] else [])
  }

  /** `nodes.filter(n => n.type === "chapter")` */
  function ChaptersOf(nodes: seq<GraphNode>): (r: seq<GraphNode>)
    ensures forall n | n in r :: n.ChapterNode? && n in nodes
    ensures forall n | n in nodes && n.ChapterNode? :: n in r
  {
    if nodes == [] then []
    else
      var last := nodes[|nodes| - 1];
      ChaptersOf(nodes[..|nodes| - 1]) + (if last.ChapterNode? then [last] else [])
  }

  /** `chapters.filter(c => c.book_id === bookId)` */
  function ChaptersOfBook(chapters: seq<GraphNode>, bookId: string): (r: seq<GraphNode>)
    ensures forall c | c in r :: c in chapters && c.ChapterNode? && c.bookId == bookId
    ensures forall c | c in chapters && c.ChapterNode? && c.bookId == bookId :: c in r
  {
    if chapters == [] then []
    else
      var last := chapters[|chapters| - 1];
      ChaptersOfBook(chapters[..|chapters| - 1], bookId)
      + (if last.ChapterNode? && last.bookId == bookId then [last] else [])
  }

  /** The number of chapters carrying `bookId`. */
  function ChapterCount(chapters: seq<GraphNode>, bookId: string): nat {
    |ChaptersOfBook(chapters, bookId)|
  }

  /** `bookColorMap`: each book id to the colour of its position; a repeated id keeps the last one. */
  function ColorMap(books: seq<GraphNode>): (m: map<string, string>)
    ensures m.Keys == set b | b in books :: b.id
  {
    if books == [] then map[]
    else
      var init := books[..|books| - 1];
      var last := books[|books| - 1];
      assert (set b | b in books :: b.id) == (set b | b in init :: b.id) + {last.id};
      ColorMap(init)[last.id := BookColors[(|books| - 1) % |BookColors|]]
  }

  /** The position data carried over from a previous view node. */
  datatype Position = Position(x: Option<real>, y: Option<real>, fx: Option<real>, fy: Option<real>)

  /** `prevPositions`: ids of previous nodes with non-null x and y, the last such node winning. */
  function PrevPositions(previous: seq<ViewNode>): map<string, Position> {
    if previous == [] then map[]
    else
      var m := PrevPositions(previous[..|previous| - 1]);
      var n := previous[|previous| - 1];
      if n.x.Some? && n.y.Some? then m[n.id := Position(n.x, n.y, n.fx, n.fy)] else m
  }

  /** The label of a chapter node: a non-empty title, else the chapter id. */
  function ChapterLabel(c: GraphNode): string
    requires c.ChapterNode?
  {
    if c.title.Some? && c.title.value != "" then c.title.value else c.id
  }

  function ChapterKey(id: string): string {
    "chapter-" + id
  }

  function BookKey(id: string): string {
    "book-" + id
  }

  /** The node of chapter `c` of expanded book `bookId`. Without a carried-over position, the spiral
      placement around the book is not modelled and x and y are `None`. */
  function ChapterView(c: GraphNode, bookId: string, color: string, positions: map<string, Position>): ViewNode
    requires c.ChapterNode?
  {
    var key := ChapterKey(c.id);
    var p := if key in positions then Some(positions[key]) else None;
    ViewNode(key, ChapterKind, bookId, ChapterLabel(c), color, Some(c.id), None,
      if p.Some? then p.value.x else None,
      if p.Some? then p.value.y else None,
      if p.Some? then p.value.fx else None,
      if p.Some? then p.value.fy else None)
  }

  /** The single node of a collapsed book. */
  function BookView(book: GraphNode, chapters: seq<GraphNode>, color: string, positions: map<string, Position>): ViewNode
    requires book.BookNode?
  {
    var key := BookKey(book.id);
    var p := if key in positions then Some(positions[key]) else None;
    var count := ChapterCount(chapters, book.id);
    ViewNode(key, BookKind, book.id, book.id, color, None,
      if count > 0 then Some(count as real) else book.size,
      if p.Some? then p.value.x else None,
      if p.Some? then p.value.y else None,
      if p.Some? then p.value.fx else None,
      if p.Some? then p.value.fy else None)
  }

  /** The chapter nodes of an expanded book, one per chapter carrying its id, in order. */
  function ChapterViews(bookChapters: seq<GraphNode>, bookId: string, color: string, positions: map<string, Position>): (r: seq<ViewNode>)
    requires forall c | c in bookChapters :: c.ChapterNode?
    ensures |r| == |bookChapters|
    ensures forall i | 0 <= i < |r| :: r[i] == ChapterView(bookChapters[i], bookId, color, positions)
  {
    if bookChapters == [] then []
    else
      ChapterViews(bookChapters[..|bookChapters| - 1], bookId, color, positions)
      + [ChapterView(bookChapters[|bookChapters| - 1], bookId, color, positions)]
  }

  /** The nodes one book contributes. */
  function BookBlock(book: GraphNode, chapters: seq<GraphNode>, expanded: set<string>, color: string,
                     positions: map<string, Position>): seq<ViewNode>
    requires book.BookNode?
  {
    if book.id in expanded then ChapterViews(ChaptersOfBook(chapters, book.id), book.id, color, positions)
    else [BookView(book, chapters, color, positions)]
  }

  /** The blocks of the books, in book order, each book in the colour `colors` gives its id. */
  function BlocksOf(books: seq<GraphNode>, chapters: seq<GraphNode>, expanded: set<string>,
                    colors: map<string, string>, positions: map<string, Position>): (r: seq<seq<ViewNode>>)
    requires forall b | b in books :: b.BookNode? && b.id in colors
    ensures |r| == |books|
  {
    if books == [] then []
    else
      var last := books[|books| - 1];
      BlocksOf(books[..|books| - 1], chapters, expanded, colors, positions)
      + [BookBlock(last, chapters, expanded, colors[last.id], positions)]
  }

  function Blocks(graph: Graph, expanded: set<string>, previous: seq<ViewNode>): (r: seq<seq<ViewNode>>)
    ensures |r| == |BooksOf(graph.nodes)|
  {
    var books := BooksOf(graph.nodes);
    BlocksOf(books, ChaptersOf(graph.nodes), expanded, ColorMap(books), PrevPositions(previous))
  }

  /** The nodes of the view: the blocks of the books, concatenated. */
  function ViewNodes(graph: Graph, expanded: set<string>, previous: seq<ViewNode>): seq<ViewNode> {
    Flatten(Blocks(graph, expanded, previous))
  }

  /** The view keys of some chapters. */
  function KeysOf(chapters: seq<GraphNode>): set<string> {
    if chapters == [] then {}
    else KeysOf(chapters[..|chapters| - 1]) + {ChapterKey(chapters[|chapters| - 1].id)}
  }

  /** The keys of the chapters, among `chapters`, of the expanded books among `books`. */
  function VisibleAmong(books: seq<GraphNode>, chapters: seq<GraphNode>, expanded: set<string>): set<string> {
    if books == [] then {}
    else
      var last := books[|books| - 1];
      VisibleAmong(books[..|books| - 1], chapters, expanded)
      + (if last.id in expanded then KeysOf(ChaptersOfBook(chapters, last.id)) else {})
  }

  /** `visibleChapterIds`: the keys of the chapters of expanded books. */
  function VisibleIds(graph: Graph, expanded: set<string>): set<string> {
    VisibleAmong(BooksOf(graph.nodes), ChaptersOf(graph.nodes), expanded)
  }

  /** `nextLinks`: the edges whose two endpoint keys are visible, in edge order, with their scores. */
  function LinksOf(edges: seq<GraphEdge>, visible: set<string>): seq<ViewLink> {
    if edges == [] then []
    else
      var e := edges[|edges| - 1];
      var s, t := ChapterKey(e.source), ChapterKey(e.target);
      LinksOf(edges[..|edges| - 1], visible) + (if s in visible && t in visible then [ViewLink(s, t, e.score)] else [])
  }
}
