/** The Python string operations the enrichment code relies on: `lower`, `split()`, `strip()`, `" ".join`. */
module Text {

  /** Python's `str.isspace` for one character. */
  predicate IsSpace(ch: char) {
    var n := ch as int;
    n == 0x20 || 0x09 <= n <= 0x0D || 0x1C <= n <= 0x1F || n == 0x85 || n == 0xA0 || n == 0x1680
    || 0x2000 <= n <= 0x200A || n == 0x2028 || n == 0x2029 || n == 0x202F || n == 0x205F || n == 0x3000
  }

  predicate NoSpace(s: string) {
    forall i | 0 <= i < |s| :: !IsSpace(s[i])
  }

  predicate AllSpace(s: string) {
    forall i | 0 <= i < |s| :: IsSpace(s[i])
  }

  /** Lower-casing of one character (ASCII letters). */
  function LowerChar(ch: char): char {
    if 'A' <= ch <= 'Z' then (ch as int + 32) as char else ch
  }

  /** `text.lower()`, character by character. */
  function Lower(s: string): (r: string)
    ensures |r| == |s| && forall i | 0 <= i < |s| :: r[i] == LowerChar(s[i])
  {
    seq(|s|, i requires 0 <= i < |s| => LowerChar(s[i]))
  }

  lemma LowerAppend(a: string, b: string)
    ensures Lower(a + b) == Lower(a) + Lower(b)
  {
  }

  /** The length of the run of non-space characters `s` starts with. */
  function WordLength(s: string): (n: nat)
    ensures n <= |s| && NoSpace(s[..n]) && (n == |s| || IsSpace(s[n]))
  {
    if s == [] || IsSpace(s[0]) then 0
    else
      var n := 1 + WordLength(s[1..]);
      assert forall i | 1 <= i < n :: s[..n][i] == s[1..][..n - 1][i - 1];
      n
  }

  /** `s.split()`: the maximal runs of non-space characters, in order. */
  function Words(s: string): (ws: seq<string>)
    ensures forall k | 0 <= k < |ws| :: ws[k] != [] && NoSpace(ws[k])
    decreases |s|
  {
    if s == [] then []
    else if IsSpace(s[0]) then Words(s[1..])
    else
      var n := WordLength(s);
      [s[..n]] + Words(s[n..])
  }

  /** `" ".join(parts)` */
  function Join(parts: seq<string>): string {
    if parts == [] then ""
    else if |parts| == 1 then parts[0]
    else parts[0] + " " + Join(parts[1..])
  }

  /** The number of whitespace characters `s` starts with. */
  function LeadingSpaces(s: string): (n: nat)
    ensures n <= |s| && AllSpace(s[..n]) && (n == |s| || !IsSpace(s[n]))
  {
    if s == [] || !IsSpace(s[0]) then 0
    else
      var n := 1 + LeadingSpaces(s[1..]);
      assert forall i | 1 <= i < n :: s[..n][i] == s[1..][..n - 1][i - 1];
      n
  }

  /** The number of whitespace characters `s` ends with. */
  function TrailingSpaces(s: string): (n: nat)
    ensures n <= |s| && AllSpace(s[|s| - n..]) && (n == |s| || !IsSpace(s[|s| - n - 1]))
  {
    if s == [] || !IsSpace(s[|s| - 1]) then 0
    else
      var init := s[..|s| - 1];
      var m := TrailingSpaces(init);
      SpacesSnoc(s, m);
      m + 1
  }

  /** Whitespace ending the text before its last character, followed by a whitespace last character. */
  lemma SpacesSnoc(s: string, m: nat)
    requires s != [] && IsSpace(s[|s| - 1]) && m <= |s| - 1
    requires AllSpace(s[..|s| - 1][|s| - 1 - m..])
    requires m == |s| - 1 || !IsSpace(s[..|s| - 1][|s| - 1 - m - 1])
    ensures AllSpace(s[|s| - (m + 1)..]) && (m + 1 == |s| || !IsSpace(s[|s| - (m + 1) - 1]))
  {
    var init := s[..|s| - 1];
    assert s[|s| - (m + 1)..] == init[|init| - m..] + [s[|s| - 1]];
  }

  /** `s.strip()`: drop the leading and trailing whitespace. */
  function Strip(s: string): string {
    var t := s[LeadingSpaces(s)..];
    t[..|t| - TrailingSpaces(t)]
  }

  /** A leading word ends where it ended before whatever follows a space is appended. */
  lemma {:induction false} WordLengthAppend(a: string, b: string)
    requires WordLength(a) < |a| || (b != [] && IsSpace(b[0]))
    ensures WordLength(a + b) == WordLength(a)
    decreases |a|
  {
    if a == [] {
      assert a + b == b;
    } else if IsSpace(a[0]) {
      assert (a + b)[0] == a[0];
    } else {
      assert (a + b)[0] == a[0];
      assert (a + b)[1..] == a[1..] + b;
      WordLengthAppend(a[1..], b);
    }
  }

  /** Splitting text joined at a space gives the words of each side. */
  lemma {:induction false} WordsAroundSpace(a: string, sp: char, b: string)
    requires IsSpace(sp)
    ensures Words(a + [sp] + b) == Words(a) + Words(b)
    decreases |a|
  {
    var s := a + [sp] + b;
    if a == [] {
      assert s[1..] == b;
    } else if IsSpace(a[0]) {
      assert s[1..] == a[1..] + [sp] + b;
      WordsAroundSpace(a[1..], sp, b);
    } else {
      var n := WordLength(a);
      WordLengthAppend(a, [sp] + b);
      assert s == a + ([sp] + b);
      assert s[..n] == a[..n];
      assert s[n..] == a[n..] + [sp] + b;
      WordsAroundSpace(a[n..], sp, b);
    }
  }

  /** Text made only of whitespace has no words. */
  lemma {:induction false} WordsOfSpaces(s: string)
    requires AllSpace(s)
    ensures Words(s) == []
    decreases |s|
  {
    if s != [] {
      WordsOfSpaces(s[1..]);
    }
  }

  /** Splitting the joined parts gives the words of each part, in order. */
  lemma {:induction false} WordsOfJoin(parts: seq<string>)
    ensures Words(Join(parts)) == Flat(seq(|parts|, k requires 0 <= k < |parts| => Words(parts[k])))
  {
    if |parts| == 1 {
      assert Flat([Words(parts[0])]) == Words(parts[0]);
    } else if |parts| > 1 {
      var rest := parts[1..];
      assert Join(parts) == parts[0] + [' '] + Join(rest);
      WordsAroundSpace(parts[0], ' ', Join(rest));
      WordsOfJoin(rest);
      var ws := seq(|parts|, k requires 0 <= k < |parts| => Words(parts[k]));
      assert ws[1..] == seq(|rest|, k requires 0 <= k < |rest| => Words(rest[k]));
      assert Flat(ws) == ws[0] + Flat(ws[1..]);
    }
  }

  /** The concatenation of word lists. */
  function Flat(wss: seq<seq<string>>): seq<string> {
    if wss == [] then [] else wss[0] + Flat(wss[1..])
  }

  /** Whitespace around the text does not change its words. */
  lemma WordsBetweenSpaces(pre: string, mid: string, post: string)
    requires AllSpace(pre) && AllSpace(post)
    ensures Words(pre + mid + post) == Words(mid)
  {
    WordsOfSpacesSuffix(mid, post);
    assert pre + mid + post == pre + (mid + post);
    WordsOfSpacesPrefix(pre, mid + post);
  }

  /** Stripping does not change the words. */
  lemma StripKeepsWords(s: string)
    ensures Words(Strip(s)) == Words(s)
  {
    var k := LeadingSpaces(s);
    var t := s[k..];
    var m := |t| - TrailingSpaces(t);
    assert s == s[..k] + t[..m] + t[m..];
    WordsBetweenSpaces(s[..k], t[..m], t[m..]);
  }

  lemma WordsOfSpacesSuffix(u: string, rest: string)
    requires AllSpace(rest)
    ensures Words(u + rest) == Words(u)
  {
    if rest == [] {
      assert u + rest == u;
    } else {
      assert u + rest == u + [rest[0]] + rest[1..];
      WordsAroundSpace(u, rest[0], rest[1..]);
      WordsOfSpaces(rest[1..]);
    }
  }

  lemma {:induction false} WordsOfSpacesPrefix(pre: string, t: string)
    requires AllSpace(pre)
    ensures Words(pre + t) == Words(t)
    decreases |pre|
  {
    if pre == [] {
      assert pre + t == t;
    } else {
      assert (pre + t)[0] == pre[0];
      assert (pre + t)[1..] == pre[1..] + t;
      WordsOfSpacesPrefix(pre[1..], t);
    }
  }

  /** `strip()` leaves nothing exactly when the text is all whitespace. */
  lemma StripEmptyIffAllSpace(s: string)
    ensures Strip(s) == [] <==> AllSpace(s)
  {
    var k := LeadingSpaces(s);
    if k < |s| {
      var t := s[k..];
      assert !IsSpace(t[0]);
      assert TrailingSpaces(t) < |t|;
    } else {
      assert s[..k] == s;
    }
  }
}
