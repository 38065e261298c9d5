/** What the view promises: links join two visible chapter nodes, an expanded book shows no book node,
    node ids are unique, colours cycle with the book's position, and previous positions carry over. */
module ViewProperties {
  import opened Outcomes
  import opened GraphTypes
  import opened Sequences
  import opened ViewSpec

  /** No two positions of `ns` carry the same id. */
  predicate UniqueIds(ns: seq<GraphNode>) {
    forall i, j | 0 <= i < j < |ns| :: ns[i].id != ns[j].id
  }

  predicate Colored(books: seq<GraphNode>, colors: map<string, string>) {
    forall b | b in books :: b.BookNode? && b.id in colors
  }

  predicate AllChapters(chapters: seq<GraphNode>) {
    forall c | c in chapters :: c.ChapterNode?
  }

  lemma ChapterKeyInjective(a: string, b: string)
    requires ChapterKey(a) == ChapterKey(b)
    ensures a == b
  {
    assert a == ChapterKey(a)[8..];
    assert b == ChapterKey(b)[8..];
  }

  lemma BookKeyInjective(a: string, b: string)
    requires BookKey(a) == BookKey(b)
    ensures a == b
  {
    assert a == BookKey(a)[5..];
    assert b == BookKey(b)[5..];
  }

  /** `book-...` and `chapter-...` ids never meet: they differ at the first character. */
  lemma BookAndChapterKeysDiffer(a: string, b: string)
    ensures BookKey(a) != ChapterKey(b)
  {
    assert BookKey(a)[0] == 'b' && ChapterKey(b)[0] == 'c';
  }

  /** The block at position `k` is the block of the book at position `k`. */
  lemma {:induction false} BlocksOfAt(books: seq<GraphNode>, chapters: seq<GraphNode>, expanded: set<string>,
                                      colors: map<string, string>, positions: map<string, Position>, k: int)
    requires Colored(books, colors)
    requires 0 <= k < |books|
    ensures books[k].BookNode? && books[k].id in colors
    ensures BlocksOf(books, chapters, expanded, colors, positions)[k]
      == BookBlock(books[k], chapters, expanded, colors[books[k].id], positions)
  {
    assert books[k] in books;
    var init := books[..|books| - 1];
    if k < |books| - 1 {
      assert init[k] == books[k];
      BlocksOfAt(init, chapters, expanded, colors, positions, k);
    }
  }

  /** Every node of the view comes from one of the books: a book node of a collapsed book, keyed
      `book-<id>`, or a chapter node of an expanded book, keyed `chapter-<chapter id>` of one of its chapters. */
  lemma NodeShape(books: seq<GraphNode>, chapters: seq<GraphNode>, expanded: set<string>,
                  colors: map<string, string>, positions: map<string, Position>, n: ViewNode)
    requires Colored(books, colors)
    requires n in Flatten(BlocksOf(books, chapters, expanded, colors, positions))
    ensures exists k | 0 <= k < |books| :: books[k].id == n.bookId
    ensures n.kind == BookKind ==> n.id == BookKey(n.bookId) && n.bookId !in expanded
    ensures n.kind == ChapterKind ==> (n.bookId in expanded &&
      exists c | c in chapters :: c.ChapterNode? && c.bookId == n.bookId && n.id == ChapterKey(c.id))
  {
    var blocks := BlocksOf(books, chapters, expanded, colors, positions);
    FlattenMember(blocks, n);
    var k :| 0 <= k < |blocks| && n in blocks[k];
    BlocksOfAt(books, chapters, expanded, colors, positions, k);
    var book := books[k];
    if book.id in expanded {
      var bc := ChaptersOfBook(chapters, book.id);
      var views := ChapterViews(bc, book.id, colors[book.id], positions);
      var i :| 0 <= i < |views| && views[i] == n;
      assert bc[i] in bc;
    }
  }

  /** In the view, no book node belongs to an expanded book. */
  lemma ExpandedBooksHaveNoBookNode(graph: Graph, expanded: set<string>, previous: seq<ViewNode>, n: ViewNode)
    requires n in ViewNodes(graph, expanded, previous)
    requires n.kind == BookKind
    ensures n.bookId !in expanded
    ensures n.id == BookKey(n.bookId)
  {
    var books := BooksOf(graph.nodes);
    NodeShape(books, ChaptersOf(graph.nodes), expanded, ColorMap(books), PrevPositions(previous), n);
  }

  /** A collapsed book shows exactly its book node. */
  lemma CollapsedBookShown(books: seq<GraphNode>, chapters: seq<GraphNode>, expanded: set<string>,
                           colors: map<string, string>, positions: map<string, Position>, k: int)
    requires Colored(books, colors)
    requires 0 <= k < |books| && books[k].id !in expanded
    ensures books[k].BookNode? && books[k].id in colors
    ensures BookView(books[k], chapters, colors[books[k].id], positions)
      in Flatten(BlocksOf(books, chapters, expanded, colors, positions))
  {
    var blocks := BlocksOf(books, chapters, expanded, colors, positions);
    BlocksOfAt(books, chapters, expanded, colors, positions, k);
    FlattenMember(blocks, BookView(books[k], chapters, colors[books[k].id], positions));
  }

  /** An expanded book shows a node for each of its chapters. */
  lemma ExpandedChaptersShown(books: seq<GraphNode>, chapters: seq<GraphNode>, expanded: set<string>,
                              colors: map<string, string>, positions: map<string, Position>, k: int, c: GraphNode)
    requires Colored(books, colors)
    requires 0 <= k < |books| && books[k].id in expanded
    requires c in chapters && c.ChapterNode? && c.bookId == books[k].id
    ensures books[k].BookNode? && books[k].id in colors
    ensures ChapterView(c, books[k].id, colors[books[k].id], positions)
      in Flatten(BlocksOf(books, chapters, expanded, colors, positions))
  {
    var blocks := BlocksOf(books, chapters, expanded, colors, positions);
    BlocksOfAt(books, chapters, expanded, colors, positions, k);
    var bc := ChaptersOfBook(chapters, books[k].id);
    var i :| 0 <= i < |bc| && bc[i] == c;
    var views := ChapterViews(bc, books[k].id, colors[books[k].id], positions);
    assert views[i] == ChapterView(c, books[k].id, colors[books[k].id], positions);
    FlattenMember(blocks, views[i]);
  }

  /** Filtering keeps ids unique. */
  lemma {:induction false} ChaptersOfBookUnique(chapters: seq<GraphNode>, bookId: string)
    requires UniqueIds(chapters)
    ensures UniqueIds(ChaptersOfBook(chapters, bookId))
  {
    if chapters != [] {
      var init := chapters[..|chapters| - 1];
      var last := chapters[|chapters| - 1];
      assert UniqueIds(init) by {
        forall i, j | 0 <= i < j < |init| ensures init[i].id != init[j].id {
          assert init[i] == chapters[i] && init[j] == chapters[j];
        }
      }
      ChaptersOfBookUnique(init, bookId);
      var r := ChaptersOfBook(init, bookId);
      forall c | c in r ensures c.id != last.id {
        var k :| 0 <= k < |init| && init[k] == c;
        assert chapters[k] == c;
      }
    }
  }

  /** The nodes of one block carry distinct ids. */
  lemma BlockUnique(book: GraphNode, chapters: seq<GraphNode>, expanded: set<string>, color: string,
                    positions: map<string, Position>)
    requires book.BookNode? && AllChapters(chapters) && UniqueIds(chapters)
    ensures var b := BookBlock(book, chapters, expanded, color, positions);
      forall i, j | 0 <= i < j < |b| :: b[i].id != b[j].id
  {
    if book.id in expanded {
      var bc := ChaptersOfBook(chapters, book.id);
      ChaptersOfBookUnique(chapters, book.id);
      var b := ChapterViews(bc, book.id, color, positions);
      forall i, j | 0 <= i < j < |b| ensures b[i].id != b[j].id {
        if b[i].id == b[j].id {
          ChapterKeyInjective(bc[i].id, bc[j].id);
        }
      }
    }
  }

  /** Nodes from different books carry different ids, given unique chapter ids. */
  lemma DifferentBooksDifferentKeys(chapters: seq<GraphNode>, p: ViewNode, q: ViewNode)
    requires UniqueIds(chapters)
    requires p.bookId != q.bookId
    requires p.kind == BookKind ==> p.id == BookKey(p.bookId)
    requires q.kind == BookKind ==> q.id == BookKey(q.bookId)
    requires p.kind == ChapterKind ==>
      exists c | c in chapters :: c.ChapterNode? && c.bookId == p.bookId && p.id == ChapterKey(c.id)
    requires q.kind == ChapterKind ==>
      exists c | c in chapters :: c.ChapterNode? && c.bookId == q.bookId && q.id == ChapterKey(c.id)
    ensures p.id != q.id
  {
    if p.kind == BookKind && q.kind == BookKind {
      if p.id == q.id {
        BookKeyInjective(p.bookId, q.bookId);
      }
    } else if p.kind == BookKind {
      var c :| c in chapters && c.ChapterNode? && c.bookId == q.bookId && q.id == ChapterKey(c.id);
      BookAndChapterKeysDiffer(p.bookId, c.id);
    } else if q.kind == BookKind {
      var c :| c in chapters && c.ChapterNode? && c.bookId == p.bookId && p.id == ChapterKey(c.id);
      BookAndChapterKeysDiffer(q.bookId, c.id);
    } else {
      var c1 :| c1 in chapters && c1.ChapterNode? && c1.bookId == p.bookId && p.id == ChapterKey(c1.id);
      var c2 :| c2 in chapters && c2.ChapterNode? && c2.bookId == q.bookId && q.id == ChapterKey(c2.id);
      if p.id == q.id {
        ChapterKeyInjective(c1.id, c2.id);
      }
    }
  }

  /** With distinct book ids and distinct chapter ids, the nodes of the view carry distinct ids. */
  lemma {:induction false} NodeIdsUnique(books: seq<GraphNode>, chapters: seq<GraphNode>, expanded: set<string>,
                                         colors: map<string, string>, positions: map<string, Position>)
    requires Colored(books, colors) && AllChapters(chapters)
    requires UniqueIds(books) && UniqueIds(chapters)
    ensures var ns := Flatten(BlocksOf(books, chapters, expanded, colors, positions));
      forall i, j | 0 <= i < j < |ns| :: ns[i].id != ns[j].id
  {
    if books != [] {
      var init := books[..|books| - 1];
      var last := books[|books| - 1];
      assert last in books;
      ColoredInit(books, colors);
      assert UniqueIds(init) by {
        forall i, j | 0 <= i < j < |init| ensures init[i].id != init[j].id {
          assert init[i] == books[i] && init[j] == books[j];
        }
      }
      NodeIdsUnique(init, chapters, expanded, colors, positions);
      var front := Flatten(BlocksOf(init, chapters, expanded, colors, positions));
      var block := BookBlock(last, chapters, expanded, colors[last.id], positions);
      BlockUnique(last, chapters, expanded, colors[last.id], positions);
      var ns := Flatten(BlocksOf(books, chapters, expanded, colors, positions));
      assert ns == front + block;
      forall i, j | 0 <= i < |front| <= j < |ns| ensures ns[i].id != ns[j].id {
        assert ns[i] == front[i] && ns[j] == block[j - |front|];
        FrontAndLastDiffer(books, chapters, expanded, colors, positions, i, j - |front|);
      }
    }
  }

  /** A node of the earlier books and a node of the last book carry different ids. */
  lemma FrontAndLastDiffer(books: seq<GraphNode>, chapters: seq<GraphNode>, expanded: set<string>,
                           colors: map<string, string>, positions: map<string, Position>, i: int, j: int)
    requires books != [] && Colored(books, colors) && AllChapters(chapters)
    requires UniqueIds(books) && UniqueIds(chapters)
    requires Colored(books[..|books| - 1], colors)
    requires 0 <= i < |Flatten(BlocksOf(books[..|books| - 1], chapters, expanded, colors, positions))|
    requires books[|books| - 1] in books
    requires 0 <= j < |BookBlock(books[|books| - 1], chapters, expanded, colors[books[|books| - 1].id], positions)|
    ensures Flatten(BlocksOf(books[..|books| - 1], chapters, expanded, colors, positions))[i].id !=
      BookBlock(books[|books| - 1], chapters, expanded, colors[books[|books| - 1].id], positions)[j].id
  {
    var init := books[..|books| - 1];
    var last := books[|books| - 1];
    var p := Flatten(BlocksOf(init, chapters, expanded, colors, positions))[i];
    var q := BookBlock(last, chapters, expanded, colors[last.id], positions)[j];
    NodeShape(init, chapters, expanded, colors, positions, p);
    var k :| 0 <= k < |init| && init[k].id == p.bookId;
    assert books[k].id == p.bookId;
    if last.id in expanded {
      var bc := ChaptersOfBook(chapters, last.id);
      assert bc[j] in bc;
    }
    DifferentBooksDifferentKeys(chapters, p, q);
  }

  /** `node.id is globally unique`: over a graph whose book ids and chapter ids are distinct. */
  lemma ViewNodeIdsUnique(graph: Graph, expanded: set<string>, previous: seq<ViewNode>)
    requires UniqueIds(BooksOf(graph.nodes)) && UniqueIds(ChaptersOf(graph.nodes))
    ensures var ns := ViewNodes(graph, expanded, previous);
      forall i, j | 0 <= i < j < |ns| :: ns[i].id != ns[j].id
  {
    var books, chapters := BooksOf(graph.nodes), ChaptersOf(graph.nodes);
    var colors := ColorMap(books);
    assert Colored(books, colors);
    assert AllChapters(chapters);
    var positions := PrevPositions(previous);
    NodeIdsUnique(books, chapters, expanded, colors, positions);
    assert ViewNodes(graph, expanded, previous) == Flatten(BlocksOf(books, chapters, expanded, colors, positions));
  }

  /** The chapter keys of some chapters, by position. */
  lemma {:induction false} KeysOfMember(chapters: seq<GraphNode>, key: string)
    ensures key in KeysOf(chapters) <==> exists i | 0 <= i < |chapters| :: ChapterKey(chapters[i].id) == key
  {
    if chapters != [] {
      var init := chapters[..|chapters| - 1];
      KeysOfMember(init, key);
      assert forall i | 0 <= i < |init| :: init[i] == chapters[i];
    }
  }

  /** The chapter nodes of one block are the keys of the book's chapters when it is expanded, else none. */
  lemma BlockChapterKeys(book: GraphNode, chapters: seq<GraphNode>, expanded: set<string>, color: string,
                         positions: map<string, Position>, key: string)
    requires book.BookNode? && AllChapters(chapters)
    ensures (exists n | n in BookBlock(book, chapters, expanded, color, positions) :: n.kind == ChapterKind && n.id == key)
      <==> (book.id in expanded && key in KeysOf(ChaptersOfBook(chapters, book.id)))
  {
    var block := BookBlock(book, chapters, expanded, color, positions);
    if book.id in expanded {
      var bc := ChaptersOfBook(chapters, book.id);
      KeysOfMember(bc, key);
      if key in KeysOf(bc) {
        var i :| 0 <= i < |bc| && ChapterKey(bc[i].id) == key;
        assert bc[i] in bc;
        assert block[i] in block;
      }
    }
  }

  /** The books before the last one are coloured too. */
  lemma ColoredInit(books: seq<GraphNode>, colors: map<string, string>)
    requires books != [] && Colored(books, colors)
    ensures Colored(books[..|books| - 1], colors)
  {
    var init := books[..|books| - 1];
    forall b | b in init ensures b in books {
      var k :| 0 <= k < |init| && init[k] == b;
      assert books[k] == b;
    }
  }

  /** The visible ids are exactly the ids of the chapter nodes of the view. */
  lemma {:induction false} VisibleIffChapterNode(books: seq<GraphNode>, chapters: seq<GraphNode>, expanded: set<string>,
                                                 colors: map<string, string>, positions: map<string, Position>, key: string)
    requires Colored(books, colors) && AllChapters(chapters)
    ensures key in VisibleAmong(books, chapters, expanded) <==>
      exists n | n in Flatten(BlocksOf(books, chapters, expanded, colors, positions)) :: n.kind == ChapterKind && n.id == key
  {
    if books != [] {
      var init := books[..|books| - 1];
      var last := books[|books| - 1];
      assert last in books;
      ColoredInit(books, colors);
      VisibleIffChapterNode(init, chapters, expanded, colors, positions, key);
      var front := Flatten(BlocksOf(init, chapters, expanded, colors, positions));
      var block := BookBlock(last, chapters, expanded, colors[last.id], positions);
      assert Flatten(BlocksOf(books, chapters, expanded, colors, positions)) == front + block;
      BlockChapterKeys(last, chapters, expanded, colors[last.id], positions, key);
    }
  }

  /** `nextLinks` holds exactly one link per edge whose two chapter keys are visible, with the edge's score. */
  lemma {:induction false} LinksOfMember(edges: seq<GraphEdge>, visible: set<string>, l: ViewLink)
    ensures l in LinksOf(edges, visible) <==>
      exists e | e in edges :: ChapterKey(e.source) in visible && ChapterKey(e.target) in visible
        && l == ViewLink(ChapterKey(e.source), ChapterKey(e.target), e.score)
  {
    if edges != [] {
      var init := edges[..|edges| - 1];
      LinksOfMember(init, visible, l);
      assert forall e | e in init :: e in edges;
      assert forall e | e in edges :: e in init || e == edges[|edges| - 1] by {
        forall e | e in edges ensures e in init || e == edges[|edges| - 1] {
          var k :| 0 <= k < |edges| && edges[k] == e;
          if k < |edges| - 1 {
            assert init[k] == e;
          }
        }
      }
    }
  }

  /** Links keep edge order: the links of a concatenation are the concatenated links. */
  lemma {:induction false} LinksOfAppend(a: seq<GraphEdge>, b: seq<GraphEdge>, visible: set<string>)
    ensures LinksOf(a + b, visible) == LinksOf(a, visible) + LinksOf(b, visible)
  {
    if b == [] {
      assert a + b == a;
    } else {
      assert (a + b)[..|a + b| - 1] == a + b[..|b| - 1];
      LinksOfAppend(a, b[..|b| - 1], visible);
    }
  }

  /** `every link connects two visible nodes`: both ends of a link are chapter nodes of the view. */
  lemma LinksJoinChapterNodes(graph: Graph, expanded: set<string>, previous: seq<ViewNode>, l: ViewLink)
    requires l in LinksOf(graph.edges, VisibleIds(graph, expanded))
    ensures exists n | n in ViewNodes(graph, expanded, previous) :: n.kind == ChapterKind && n.id == l.source
    ensures exists n | n in ViewNodes(graph, expanded, previous) :: n.kind == ChapterKind && n.id == l.target
  {
    var books, chapters := BooksOf(graph.nodes), ChaptersOf(graph.nodes);
    var colors, positions := ColorMap(books), PrevPositions(previous);
    LinksOfMember(graph.edges, VisibleIds(graph, expanded), l);
    VisibleIffChapterNode(books, chapters, expanded, colors, positions, l.source);
    VisibleIffChapterNode(books, chapters, expanded, colors, positions, l.target);
  }

  /** With distinct book ids, the book at position `i` gets colour `i mod 5`. */
  lemma {:induction false} ColorOfPosition(books: seq<GraphNode>, i: int)
    requires UniqueIds(books) && 0 <= i < |books|
    ensures books[i].id in ColorMap(books)
    ensures ColorMap(books)[books[i].id] == BookColors[i % |BookColors|]
  {
    var init := books[..|books| - 1];
    if i < |books| - 1 {
      assert UniqueIds(init) by {
        forall p, q | 0 <= p < q < |init| ensures init[p].id != init[q].id {
          assert init[p] == books[p] && init[q] == books[q];
        }
      }
      assert init[i] == books[i];
      ColorOfPosition(init, i);
    }
  }

  /** A collapsed book at position `i` shows one node `book-<id>` in colour `i mod 5`, labelled with its id,
      counting its chapters (or giving `size` when it has none), at the position carried over under its key. */
  lemma CollapsedBookNode(graph: Graph, expanded: set<string>, previous: seq<ViewNode>, i: int)
    requires UniqueIds(BooksOf(graph.nodes))
    requires 0 <= i < |BooksOf(graph.nodes)| && BooksOf(graph.nodes)[i].id !in expanded
    ensures var book := BooksOf(graph.nodes)[i];
      var count := ChapterCount(ChaptersOf(graph.nodes), book.id);
      var key := BookKey(book.id);
      var pos := PrevPositions(previous);
      book.BookNode? &&
      exists n | n in ViewNodes(graph, expanded, previous) ::
        n.id == key && n.kind == BookKind && n.bookId == book.id && n.labelText == book.id
        && n.color == BookColors[i % |BookColors|]
        && n.chapterCount == (if count > 0 then Some(count as real) else book.size)
        && n.x == (if key in pos then pos[key].x else None) && n.y == (if key in pos then pos[key].y else None)
  {
    var books, chapters := BooksOf(graph.nodes), ChaptersOf(graph.nodes);
    var colors, positions := ColorMap(books), PrevPositions(previous);
    assert Colored(books, colors);
    ColorOfPosition(books, i);
    CollapsedBookShown(books, chapters, expanded, colors, positions, i);
    assert ViewNodes(graph, expanded, previous) == Flatten(BlocksOf(books, chapters, expanded, colors, positions));
    BookViewFields(books[i], chapters, colors[books[i].id], positions);
  }

  /** The fields of a collapsed book's node. */
  lemma BookViewFields(book: GraphNode, chapters: seq<GraphNode>, color: string, positions: map<string, Position>)
    requires book.BookNode?
    ensures var n := BookView(book, chapters, color, positions);
      var count := ChapterCount(chapters, book.id);
      var key := BookKey(book.id);
      n.id == key && n.kind == BookKind && n.bookId == book.id && n.labelText == book.id && n.color == color
      && n.chapterCount == (if count > 0 then Some(count as real) else book.size)
      && n.x == (if key in positions then positions[key].x else None)
      && n.y == (if key in positions then positions[key].y else None)
  {
  }

  /** A chapter of an expanded book at position `i` shows as `chapter-<id>` in the book's colour, labelled
      with its non-empty title or else its id, at the position carried over under its key. */
  lemma ExpandedChapterNode(graph: Graph, expanded: set<string>, previous: seq<ViewNode>, i: int, c: GraphNode)
    requires UniqueIds(BooksOf(graph.nodes))
    requires 0 <= i < |BooksOf(graph.nodes)| && BooksOf(graph.nodes)[i].id in expanded
    requires c in graph.nodes && c.ChapterNode? && c.bookId == BooksOf(graph.nodes)[i].id
    ensures var key := ChapterKey(c.id);
      var pos := PrevPositions(previous);
      exists n | n in ViewNodes(graph, expanded, previous) ::
        n.id == key && n.kind == ChapterKind && n.bookId == c.bookId && n.chapterId == Some(c.id)
        && n.labelText == (if c.title.Some? && c.title.value != "" then c.title.value else c.id)
        && n.color == BookColors[i % |BookColors|]
        && n.x == (if key in pos then pos[key].x else None) && n.y == (if key in pos then pos[key].y else None)
  {
    var books, chapters := BooksOf(graph.nodes), ChaptersOf(graph.nodes);
    var colors, positions := ColorMap(books), PrevPositions(previous);
    assert Colored(books, colors);
    ColorOfPosition(books, i);
    ExpandedChaptersShown(books, chapters, expanded, colors, positions, i, c);
    assert ViewNodes(graph, expanded, previous) == Flatten(BlocksOf(books, chapters, expanded, colors, positions));
    ChapterViewFields(c, books[i].id, colors[books[i].id], positions);
  }

  /** The fields of an expanded chapter's node. */
  lemma ChapterViewFields(c: GraphNode, bookId: string, color: string, positions: map<string, Position>)
    requires c.ChapterNode?
    ensures var n := ChapterView(c, bookId, color, positions);
      var key := ChapterKey(c.id);
      n.id == key && n.kind == ChapterKind && n.bookId == bookId && n.chapterId == Some(c.id)
      && n.labelText == (if c.title.Some? && c.title.value != "" then c.title.value else c.id)
      && n.color == color
      && n.x == (if key in positions then positions[key].x else None)
      && n.y == (if key in positions then positions[key].y else None)
  {
  }

  /** `prevPositions` holds an id exactly when some previous node with that id has both x and y, and then
      the position of the last such node. */
  lemma {:induction false} PrevPositionsSpec(previous: seq<ViewNode>, id: string)
    ensures id in PrevPositions(previous) <==>
      exists k | 0 <= k < |previous| :: previous[k].id == id && previous[k].x.Some? && previous[k].y.Some?
    ensures id in PrevPositions(previous) ==>
      exists k | 0 <= k < |previous| :: previous[k].id == id && previous[k].x.Some? && previous[k].y.Some?
        && PrevPositions(previous)[id] == Position(previous[k].x, previous[k].y, previous[k].fx, previous[k].fy)
        && forall k' | k < k' < |previous| :: !(previous[k'].id == id && previous[k'].x.Some? && previous[k'].y.Some?)
  {
    if previous != [] {
      var init := previous[..|previous| - 1];
      PrevPositionsSpec(init, id);
      assert forall k | 0 <= k < |init| :: init[k] == previous[k];
    }
  }
}
