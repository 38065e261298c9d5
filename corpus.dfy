/** The records that flow between the pipeline stages: books, chapters with their signals bag, edges. */
module Corpus {
  import opened Outcomes

  /** `signals["features"]`: the keyword list and any other extracted features. */
  datatype Features = Features(keywords: Option<seq<string>>, others: map<string, seq<string>>)

  /** `chapter["signals"]`: summary bullets and extracted features, each possibly missing. */
  datatype Signals = Signals(bullets: Option<seq<string>>, features: Option<Features>)

  /** One chapter record; `id` has the form `{book_id}::{local_id}`, every other key may be missing. */
  datatype Chapter = Chapter(
    id: string,
    title: Option<string>,
    sections: Option<seq<string>>,
    signals: Option<Signals>,
    chapterText: Option<string>)

  /** A book record: its chapters, in order. */
  datatype Book = Book(chapters: seq<Chapter>)

  /** A directed, scored, typed edge `{from, to, score, type}`. */
  datatype Edge = Edge(from: string, to: string, score: real, kind: string)

  /** The empty dictionaries that `.get(..., {})` falls back to. */
  const NoSignals := Signals(None, None)
  const NoFeatures := Features(None, map[])

  /** `chapter.get("signals", {})` */
  function SignalsOf(c: Chapter): Signals {
    c.signals.GetOr(NoSignals)
  }

  /** `signals.get("features", {}).get("keywords", [])` */
  function KeywordsIn(s: Signals): seq<string> {
    s.features.GetOr(NoFeatures).keywords.GetOr([])
  }

  /** `chapter.get("signals", {}).get("features", {}).get("keywords", [])` */
  function KeywordsOf(c: Chapter): seq<string> {
    KeywordsIn(SignalsOf(c))
  }

  /** `chapter.get("signals", {}).get("bullets", [])` */
  function BulletsOf(c: Chapter): seq<string> {
    SignalsOf(c).bullets.GetOr([])
  }

  /** Every chapter of every book, in book order then chapter order. */
  function AllChapters(books: seq<Book>): seq<Chapter> {
    if books == [] then [] else AllChapters(books[..|books| - 1]) + books[|books| - 1].chapters
  }

  lemma {:induction false} AllChaptersMember(books: seq<Book>, c: Chapter)
    ensures c in AllChapters(books) <==> exists b | 0 <= b < |books| :: c in books[b].chapters
  {
    if books != [] {
      var init := books[..|books| - 1];
      AllChaptersMember(init, c);
      assert forall b | 0 <= b < |init| :: init[b] == books[b];
    }
  }

  /** Every chapter of book `b` is among the chapters of all books. */
  lemma BookChaptersListed(books: seq<Book>, b: int)
    requires 0 <= b < |books|
    ensures forall ch | ch in books[b].chapters :: ch in AllChapters(books)
  {
    forall ch | ch in books[b].chapters ensures ch in AllChapters(books) {
      AllChaptersMember(books, ch);
    }
  }

  /** The step that the nested book/chapter loops take after finishing book `b`. */
  lemma AllChaptersStep(books: seq<Book>, b: int)
    requires 0 <= b < |books|
    ensures AllChapters(books[..b + 1]) == AllChapters(books[..b]) + books[b].chapters
  {
    assert books[..b + 1][..b] == books[..b];
  }

  /** A dict filled by `d[chapter["id"]] = f(chapter)` over the chapters in order: a later chapter
      with the same id overwrites an earlier one. */
  function ById<V>(chapters: seq<Chapter>, f: Chapter -> V): map<string, V> {
    if chapters == [] then map[]
    else
      var last := chapters[|chapters| - 1];
      ById(chapters[..|chapters| - 1], f)[last.id := f(last)]
  }

  /** The dict holds every chapter id, each with the value of the last chapter carrying it. */
  lemma {:induction false} ByIdSpec<V>(chapters: seq<Chapter>, f: Chapter -> V, id: string)
    ensures id in ById(chapters, f) <==> exists k | 0 <= k < |chapters| :: chapters[k].id == id
    ensures forall k | 0 <= k < |chapters| && chapters[k].id == id && (forall j | k < j < |chapters| :: chapters[j].id != id) ::
      ById(chapters, f)[id] == f(chapters[k])
  {
    if chapters != [] {
      var init := chapters[..|chapters| - 1];
      ByIdSpec(init, f, id);
      assert forall k | 0 <= k < |init| :: init[k] == chapters[k];
    }
  }

  lemma ByIdHasId<V>(chapters: seq<Chapter>, f: Chapter -> V, c: Chapter)
    requires c in chapters
    ensures c.id in ById(chapters, f)
  {
    ByIdSpec(chapters, f, c.id);
  }

  lemma ByIdStep<V>(chapters: seq<Chapter>, c: Chapter, f: Chapter -> V)
    ensures ById(chapters + [c], f) == ById(chapters, f)[c.id := f(c)]
  {
    assert (chapters + [c])[..|chapters|] == chapters;
  }

  /** The chapter loop: `d[chapter["id"]] = f(chapter)` for the chapters of one book. */
  method AddById<V>(m0: map<string, V>, ghost before: seq<Chapter>, chapters: seq<Chapter>, f: Chapter -> V)
    returns (m: map<string, V>)
    requires m0 == ById(before, f)
    ensures m == ById(before + chapters, f)
  {
    m := m0;
    var c := 0;
    assert before + chapters[..0] == before;
    while c < |chapters|
      invariant 0 <= c <= |chapters|
      invariant m == ById(before + chapters[..c], f)
    {
      ByIdStep(before + chapters[..c], chapters[c], f);
      assert before + chapters[..c + 1] == before + chapters[..c] + [chapters[c]];
      m := m[chapters[c].id := f(chapters[c])];
      c := c + 1;
    }
    assert chapters[..c] == chapters;
  }

  /** The loops over books then chapters that fill such a dict. */
  method FillById<V>(books: seq<Book>, f: Chapter -> V) returns (m: map<string, V>)
    ensures m == ById(AllChapters(books), f)
  {
    m := map[];
    var b := 0;
    while b < |books|
      invariant 0 <= b <= |books|
      invariant m == ById(AllChapters(books[..b]), f)
    {
      m := AddById(m, AllChapters(books[..b]), books[b].chapters, f);
      AllChaptersStep(books, b);
      b := b + 1;
    }
    assert books[..b] == books;
  }

  /** No two edges of `edges` share a target. */
  predicate DistinctTargets(edges: seq<Edge>) {
    forall i, j | 0 <= i < j < |edges| :: edges[i].to != edges[j].to
  }

  /** A sequence without repeated targets has as many elements as its set of elements. */
  lemma {:induction false} DistinctTargetsLength(edges: seq<Edge>)
    requires DistinctTargets(edges)
    ensures |set e | e in edges| == |edges|
    ensures multiset(edges) == multiset(set e | e in edges)
  {
    if edges != [] {
      var init := edges[..|edges| - 1];
      var last := edges[|edges| - 1];
      assert DistinctTargets(init) by {
        forall i, j | 0 <= i < j < |init| ensures init[i].to != init[j].to {
          assert init[i] == edges[i] && init[j] == edges[j];
        }
      }
      DistinctTargetsLength(init);
      var before := set e | e in init;
      assert last !in before by {
        forall i | 0 <= i < |init| ensures init[i] != last {
          assert init[i].to == edges[i].to != edges[|edges| - 1].to;
        }
      }
      assert edges == init + [last];
      assert (set e | e in edges) == before + {last};
      MultisetStep(init, last, before);
    }
  }

  /** Appending an element new to the set grows both the sequence's and the set's multiset by it. */
  lemma MultisetStep(init: seq<Edge>, last: Edge, before: set<Edge>)
    requires multiset(init) == multiset(before) && last !in before
    ensures multiset(init + [last]) == multiset(before + {last})
  {
    assert multiset(init + [last]) == multiset(init) + multiset{last};
    assert multiset(before + {last}) == multiset(before) + multiset{last};
  }

  /** A book record that code updates in place: `data["chapters"]` is reassigned element by element. */
  class BookData {
    var chapters: seq<Chapter>

    constructor (chapters: seq<Chapter>)
      ensures this.chapters == chapters
    {
      this.chapters := chapters;
    }
  }
}
