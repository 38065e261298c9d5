/** Chapter identifiers have the form `{book_id}::{local_id}`; the book is what precedes the first `::`. */
module ChapterIds {

  /** `s` holds the separator `::` starting at position `i`. */
  predicate SeparatorAt(s: string, i: int) {
    0 <= i && i + 1 < |s| && s[i] == ':' && s[i + 1] == ':'
  }

  predicate HasSeparator(s: string) {
    exists i | 0 <= i < |s| :: SeparatorAt(s, i)
  }

  /** No separator of `s` starts before position `n`. */
  predicate NoSeparatorBefore(s: string, n: int) {
    forall i | 0 <= i < n :: !SeparatorAt(s, i)
  }

  /** `chapter_id.split("::")[0]`: the text before the first `::`, or the whole id when there is none. */
  function BookId(chapterId: string): (r: string)
    ensures r <= chapterId
    ensures !HasSeparator(r)
    ensures NoSeparatorBefore(chapterId, |r|)
    ensures r == chapterId || SeparatorAt(chapterId, |r|)
    decreases |chapterId|
  {
    if chapterId == [] then ""
    else if SeparatorAt(chapterId, 0) then ""
    else
      var rest := BookId(chapterId[1..]);
      assert forall i | 0 < i <= |rest| :: SeparatorAt(chapterId, i) == SeparatorAt(chapterId[1..], i - 1);
      var r := [chapterId[0]] + rest;
      assert forall i | 0 <= i < |r| && SeparatorAt(r, i) :: SeparatorAt(chapterId, i);
      r
  }

  /** BookId's contract determines the result: the only prefix that ends at the end of the id or
      at a separator, with no separator starting earlier, is BookId's. */
  lemma BookIdUnique(chapterId: string, b: string)
    requires b <= chapterId && NoSeparatorBefore(chapterId, |b|)
    requires b == chapterId || SeparatorAt(chapterId, |b|)
    ensures b == BookId(chapterId)
  {
  }

  /** Round trip with the identifier format: a book id without `::` and not ending in `:` is recovered
      from `{book_id}::{local_id}` whatever the local id holds. */
  lemma BookIdOfComposedId(book: string, local: string)
    requires !HasSeparator(book)
    requires book == [] || book[|book| - 1] != ':'
    ensures BookId(book + "::" + local) == book
  {
    var id := book + "::" + local;
    assert book <= id;
    assert SeparatorAt(id, |book|);
    forall i | 0 <= i < |book| ensures !SeparatorAt(id, i) {
      if i + 1 < |book| {
        assert !SeparatorAt(book, i);
      }
    }
    BookIdUnique(id, book);
  }

  /** A trailing `:` in the book part moves the split point: the identifier format needs the ban. */
  lemma BookIdTrailingColon()
    ensures BookId("a:" + "::" + "b") == "a"
  {
    var id := "a:" + "::" + "b";
    assert SeparatorAt(id, 1) && !SeparatorAt(id, 0);
    BookIdUnique(id, "a");
  }

  /** Chapters of different books are different chapters. */
  lemma DifferentBooksDifferentIds(a: string, b: string)
    requires BookId(a) != BookId(b)
    ensures a != b
  {
  }
}
