/** `buildView(state, previousNodes)`: the loops that fill the lookup maps and push the view's nodes
    and links. */
module View {
  import opened Outcomes
  import opened GraphTypes
  import opened Sequences
  import opened ViewSpec

  /** One more chapter appends its node and its key. */
  lemma ChapterViewsStep(bookChapters: seq<GraphNode>, j: int, bookId: string, color: string,
                         positions: map<string, Position>)
    requires 0 <= j < |bookChapters| && forall c | c in bookChapters :: c.ChapterNode?
    ensures forall c | c in bookChapters[..j + 1] :: c.ChapterNode?
    ensures ChapterViews(bookChapters[..j + 1], bookId, color, positions)
      == ChapterViews(bookChapters[..j], bookId, color, positions) + [ChapterView(bookChapters[j], bookId, color, positions)]
    ensures KeysOf(bookChapters[..j + 1]) == KeysOf(bookChapters[..j]) + {ChapterKey(bookChapters[j].id)}
  {
    assert bookChapters[..j + 1][..j] == bookChapters[..j];
    assert bookChapters[..j + 1][j] == bookChapters[j];
  }

  /** `counts` is the chapter-count map of `chapters`. */
  ghost predicate CountsOf(counts: map<string, nat>, chapters: seq<GraphNode>) {
    (forall b :: b in counts <==> ChapterCount(chapters, b) > 0) &&
    (forall b | b in counts :: counts[b] == ChapterCount(chapters, b))
  }

  /** `chapterCountMap`: one increment per chapter under its `book_id`. */
  method CountChapters(chapters: seq<GraphNode>) returns (counts: map<string, nat>)
    requires forall c | c in chapters :: c.ChapterNode?
    ensures forall b :: b in counts <==> ChapterCount(chapters, b) > 0
    ensures forall b | b in counts :: counts[b] == ChapterCount(chapters, b)
  {
    counts := map[];
    var i := 0;
    while i < |chapters|
      invariant 0 <= i <= |chapters|
      invariant CountsOf(counts, chapters[..i])
    {
      var c := chapters[i];
      CountStep(counts, chapters, i);
      counts := counts[c.bookId := (if c.bookId in counts then counts[c.bookId] else 0) + 1];
      i := i + 1;
    }
    assert chapters[..i] == chapters;
  }

  /** One more chapter adds one to its own book's count and leaves every other count alone. */
  lemma CountStep(counts: map<string, nat>, chapters: seq<GraphNode>, i: int)
    requires 0 <= i < |chapters| && chapters[i].ChapterNode?
    requires CountsOf(counts, chapters[..i])
    ensures var id := chapters[i].bookId;
      CountsOf(counts[id := (if id in counts then counts[id] else 0) + 1], chapters[..i + 1])
  {
    var id := chapters[i].bookId;
    assert chapters[..i + 1][..i] == chapters[..i];
    forall b ensures ChapterCount(chapters[..i + 1], b) == ChapterCount(chapters[..i], b) + (if b == id then 1 else 0) {
    }
  }

  /** `bookColorMap`: `BOOK_COLORS[i % BOOK_COLORS.length]` for the book at position `i`. */
  method BuildColorMap(books: seq<GraphNode>) returns (colors: map<string, string>)
    ensures colors == ColorMap(books)
  {
    colors := map[];
    var i := 0;
    while i < |books|
      invariant 0 <= i <= |books|
      invariant colors == ColorMap(books[..i])
    {
      assert books[..i + 1][..i] == books[..i];
      colors := colors[books[i].id := BookColors[i % |BookColors|]];
      i := i + 1;
    }
    assert books[..i] == books;
  }

  /** `prevPositions`: the positions of the previous nodes whose x and y are both set. */
  method BuildPrevPositions(previous: seq<ViewNode>) returns (positions: map<string, Position>)
    ensures positions == PrevPositions(previous)
  {
    positions := map[];
    var i := 0;
    while i < |previous|
      invariant 0 <= i <= |previous|
      invariant positions == PrevPositions(previous[..i])
    {
      var n := previous[i];
      assert previous[..i + 1][..i] == previous[..i];
      if n.x.Some? && n.y.Some? {
        positions := positions[n.id := Position(n.x, n.y, n.fx, n.fy)];
      }
      i := i + 1;
    }
    assert previous[..i] == previous;
  }

  /** `bookChapters.forEach(...)`: push one chapter node per chapter and mark its key visible. */
  method EmitChapters(bookChapters: seq<GraphNode>, bookId: string, color: string, positions: map<string, Position>)
    returns (emitted: seq<ViewNode>, keys: set<string>)
    requires forall c | c in bookChapters :: c.ChapterNode?
    ensures emitted == ChapterViews(bookChapters, bookId, color, positions)
    ensures keys == KeysOf(bookChapters)
  {
    emitted := [];
    keys := {};
    var j := 0;
    while j < |bookChapters|
      invariant 0 <= j <= |bookChapters|
      invariant forall c | c in bookChapters[..j] :: c.ChapterNode?
      invariant emitted == ChapterViews(bookChapters[..j], bookId, color, positions)
      invariant keys == KeysOf(bookChapters[..j])
    {
      var c := bookChapters[j];
      ChapterViewsStep(bookChapters, j, bookId, color, positions);
      var id := ChapterKey(c.id);
      var prev := if id in positions then Some(positions[id]) else None;
      emitted := emitted + [ViewNode(id, ChapterKind, bookId, ChapterLabel(c), color, Some(c.id), None,
        if prev.Some? then prev.value.x else None,
        if prev.Some? then prev.value.y else None,
        if prev.Some? then prev.value.fx else None,
        if prev.Some? then prev.value.fy else None)];
      keys := keys + {id};
      j := j + 1;
    }
    assert bookChapters[..j] == bookChapters;
  }

  /** The node a collapsed book pushes, its chapter count read from `chapterCountMap`. */
  method EmitBook(book: GraphNode, chapters: seq<GraphNode>, color: string, positions: map<string, Position>,
                  counts: map<string, nat>)
    returns (node: ViewNode)
    requires book.BookNode?
    requires CountsOf(counts, chapters)
    ensures node == BookView(book, chapters, color, positions)
  {
    var bookKey := BookKey(book.id);
    var prev := if bookKey in positions then Some(positions[bookKey]) else None;
    var count := if book.id in counts then Some(counts[book.id] as real) else book.size;
    node := ViewNode(bookKey, BookKind, book.id, book.id, color, None, count,
      if prev.Some? then prev.value.x else None,
      if prev.Some? then prev.value.y else None,
      if prev.Some? then prev.value.fx else None,
      if prev.Some? then prev.value.fy else None);
  }

  /** The nodes one book pushes, and the chapter keys it makes visible. */
  method EmitBlock(book: GraphNode, chapters: seq<GraphNode>, expanded: set<string>, color: string,
                   positions: map<string, Position>, counts: map<string, nat>)
    returns (emitted: seq<ViewNode>, keys: set<string>)
    requires book.BookNode?
    requires forall c | c in chapters :: c.ChapterNode?
    requires CountsOf(counts, chapters)
    ensures emitted == BookBlock(book, chapters, expanded, color, positions)
    ensures keys == if book.id in expanded then KeysOf(ChaptersOfBook(chapters, book.id)) else {}
  {
    if book.id in expanded {
      emitted, keys := EmitChapters(ChaptersOfBook(chapters, book.id), book.id, color, positions);
    } else {
      var node := EmitBook(book, chapters, color, positions, counts);
      emitted, keys := [node], {};
    }
  }

  /** One more book appends its block to the nodes and its chapter keys, if expanded, to the visible set. */
  lemma BooksStep(books: seq<GraphNode>, chapters: seq<GraphNode>, expanded: set<string>,
                  colors: map<string, string>, positions: map<string, Position>, i: int)
    requires 0 <= i < |books|
    requires forall b | b in books :: b.BookNode? && b.id in colors
    ensures books[i].BookNode? && books[i].id in colors
    ensures Flatten(BlocksOf(books[..i + 1], chapters, expanded, colors, positions)) ==
      Flatten(BlocksOf(books[..i], chapters, expanded, colors, positions))
      + BookBlock(books[i], chapters, expanded, colors[books[i].id], positions)
    ensures VisibleAmong(books[..i + 1], chapters, expanded) == VisibleAmong(books[..i], chapters, expanded)
      + (if books[i].id in expanded then KeysOf(ChaptersOfBook(chapters, books[i].id)) else {})
  {
    assert books[i] in books;
    var before := BlocksOf(books[..i], chapters, expanded, colors, positions);
    var block := BookBlock(books[i], chapters, expanded, colors[books[i].id], positions);
    assert books[..i + 1][..i] == books[..i];
    assert BlocksOf(books[..i + 1], chapters, expanded, colors, positions) == before + [block];
    assert (before + [block])[..|before|] == before;
  }

  /** `books.forEach(...)`: push each book's block and collect the visible chapter keys. */
  method BuildNodes(books: seq<GraphNode>, chapters: seq<GraphNode>, expanded: set<string>,
                    colors: map<string, string>, positions: map<string, Position>, counts: map<string, nat>)
    returns (nodes: seq<ViewNode>, visible: set<string>)
    requires forall b | b in books :: b.BookNode? && b.id in colors
    requires forall c | c in chapters :: c.ChapterNode?
    requires CountsOf(counts, chapters)
    ensures nodes == Flatten(BlocksOf(books, chapters, expanded, colors, positions))
    ensures visible == VisibleAmong(books, chapters, expanded)
  {
    nodes := [];
    visible := {};
    var i := 0;
    while i < |books|
      invariant 0 <= i <= |books|
      invariant forall b | b in books[..i] :: b.BookNode? && b.id in colors
      invariant nodes == Flatten(BlocksOf(books[..i], chapters, expanded, colors, positions))
      invariant visible == VisibleAmong(books[..i], chapters, expanded)
    {
      nodes, visible := AddBook(nodes, visible, books, i, chapters, expanded, colors, positions, counts);
      i := i + 1;
    }
    assert books[..i] == books;
  }

  /** One step of `books.forEach(...)`: the nodes and visible keys after book `i`. */
  method AddBook(nodes0: seq<ViewNode>, visible0: set<string>, books: seq<GraphNode>, i: int, chapters: seq<GraphNode>,
                 expanded: set<string>, colors: map<string, string>, positions: map<string, Position>,
                 counts: map<string, nat>)
    returns (nodes: seq<ViewNode>, visible: set<string>)
    requires 0 <= i < |books|
    requires forall b | b in books :: b.BookNode? && b.id in colors
    requires forall c | c in chapters :: c.ChapterNode?
    requires CountsOf(counts, chapters)
    requires forall b | b in books[..i] :: b.BookNode? && b.id in colors
    requires nodes0 == Flatten(BlocksOf(books[..i], chapters, expanded, colors, positions))
    requires visible0 == VisibleAmong(books[..i], chapters, expanded)
    ensures forall b | b in books[..i + 1] :: b.BookNode? && b.id in colors
    ensures nodes == Flatten(BlocksOf(books[..i + 1], chapters, expanded, colors, positions))
    ensures visible == VisibleAmong(books[..i + 1], chapters, expanded)
  {
    BooksStep(books, chapters, expanded, colors, positions, i);
    var emitted, keys := EmitBlock(books[i], chapters, expanded, colors[books[i].id], positions, counts);
    nodes := nodes0 + emitted;
    visible := visible0 + keys;
  }

  /** `state.graph.edges.forEach(...)`: push a link for each edge whose two chapter keys are visible. */
  method BuildLinks(edges: seq<GraphEdge>, visible: set<string>) returns (links: seq<ViewLink>)
    ensures links == LinksOf(edges, visible)
  {
    links := [];
    var j := 0;
    while j < |edges|
      invariant 0 <= j <= |edges|
      invariant links == LinksOf(edges[..j], visible)
    {
      var e := edges[j];
      var s, t := ChapterKey(e.source), ChapterKey(e.target);
      assert edges[..j + 1][..j] == edges[..j];
      if s in visible && t in visible {
        links := links + [ViewLink(s, t, e.score)];
      }
      j := j + 1;
    }
    assert edges[..j] == edges;
  }

  /** `buildView(state, previousNodes)` */
  method BuildView(state: CoreState, previousNodes: seq<ViewNode>) returns (nodes: seq<ViewNode>, links: seq<ViewLink>)
    ensures state.graph.None? ==> nodes == [] && links == []
    ensures state.graph.Some? ==>
      nodes == ViewNodes(state.graph.value, state.expandedBooks, previousNodes) &&
      links == LinksOf(state.graph.value.edges, VisibleIds(state.graph.value, state.expandedBooks))
  {
    if state.graph.None? {
      return [], [];
    }
    var graph := state.graph.value;
    var books := BooksOf(graph.nodes);
    var chapters := ChaptersOf(graph.nodes);
    var counts := CountChapters(chapters);
    var colors := BuildColorMap(books);
    var positions := BuildPrevPositions(previousNodes);
    var visible;
    nodes, visible := BuildNodes(books, chapters, state.expandedBooks, colors, positions, counts);
    links := BuildLinks(graph.edges, visible);
  }
}
