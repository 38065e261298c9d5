/** `enrich_chapter_text`: every chapter gets a `chapter_text` built from its bullets or, failing that,
    its sections. */
module Enrichment {
  import opened Outcomes
  import opened Text
  import opened Corpus

  /** `chapter.get("sections", [])` */
  function SectionsOf(c: Chapter): seq<string> {
    c.sections.GetOr([])
  }

  /** The text one chapter receives: its bullets joined with spaces if there are any, else its sections. */
  function ChapterText(c: Chapter): string {
    var bullets := BulletsOf(c);
    if bullets != [] then Join(bullets) else Join(SectionsOf(c))
  }

  /** `chapter["chapter_text"] = ...` on one chapter. */
  function WithChapterText(c: Chapter): (r: Chapter)
    ensures r.chapterText.Some?
    ensures r.id == c.id && r.title == c.title && r.sections == c.sections && r.signals == c.signals
  {
    c.(chapterText := Some(ChapterText(c)))
  }

  /** `enrich_chapter_text(data)`: fills `chapter_text` on every chapter in place and returns `data`. */
  method EnrichChapterText(data: BookData) returns (r: BookData)
    modifies data
    ensures r == data
    ensures |data.chapters| == |old(data.chapters)|
    ensures forall k | 0 <= k < |data.chapters| :: data.chapters[k] == WithChapterText(old(data.chapters)[k])
  {
    var i := 0;
    while i < |data.chapters|
      invariant 0 <= i <= |data.chapters| == |old(data.chapters)|
      invariant forall k | 0 <= k < i :: data.chapters[k] == WithChapterText(old(data.chapters)[k])
      invariant forall k | i <= k < |data.chapters| :: data.chapters[k] == old(data.chapters)[k]
    {
      var chapter := data.chapters[i];
      var sections := SectionsOf(chapter);
      var bullets := BulletsOf(chapter);
      var text := if bullets != [] then Join(bullets) else Join(sections);
      data.chapters := data.chapters[i := chapter.(chapterText := Some(text))];
      i := i + 1;
    }
    r := data;
  }

  /** With bullets, the text splits into exactly the words of the bullets, bullet by bullet; without
      bullets, into the words of the sections; with neither, it is empty. */
  lemma ChapterTextWords(c: Chapter)
    ensures var bullets := BulletsOf(c);
      bullets != [] ==> Words(ChapterText(c)) == Flat(seq(|bullets|, k requires 0 <= k < |bullets| => Words(bullets[k])))
    ensures var sections := SectionsOf(c);
      BulletsOf(c) == [] ==> Words(ChapterText(c)) == Flat(seq(|sections|, k requires 0 <= k < |sections| => Words(sections[k])))
    ensures BulletsOf(c) == [] && SectionsOf(c) == [] ==> ChapterText(c) == ""
  {
    if BulletsOf(c) != [] {
      WordsOfJoin(BulletsOf(c));
    } else {
      WordsOfJoin(SectionsOf(c));
    }
  }

  /** Running the enrichment again changes nothing: the text depends only on bullets and sections. */
  lemma WithChapterTextIdempotent(c: Chapter)
    ensures WithChapterText(WithChapterText(c)) == WithChapterText(c)
  {
  }
}
