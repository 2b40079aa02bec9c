/**
 The text locator and replacer of the editor: the first-occurrence search
 (Go's `strings.Index`), the row and column derived from the match offset
 (`strings.Count` and `strings.Split` on the prefix before the match), and the
 first-occurrence substitution (`strings.Replace` with a count of one).

 Go strings are byte strings; here a `string` stands for one, one `char` per
 byte, and every offset is a byte offset.
 */
module Locate {

  datatype Option<T> = None | Some(value: T)

  /** The needle `s` occurs in `text` starting at byte offset `i`. */
  predicate OccursAt(text: string, s: string, i: nat)
  {
    i + |s| <= |text| && text[i..i + |s|] == s
  }

  /** The first occurrence of `s` at or after offset `k`, or -1. */
  function IndexFrom(text: string, s: string, k: nat): (r: int)
    requires k <= |text|
    ensures r == -1 || (k <= r && OccursAt(text, s, r))
    ensures r == -1 ==> forall j: nat :: k <= j ==> !OccursAt(text, s, j)
    ensures r != -1 ==> forall j: nat :: k <= j < r ==> !OccursAt(text, s, j)
    decreases |text| - k
  {
    if k + |s| > |text| then -1
    else if text[k..k + |s|] == s then k
    else IndexFrom(text, s, k + 1)
  }

  /**
   Go's `strings.Index(text, s)`: the offset of the first occurrence of `s`,
   or -1 when there is none. An empty needle occurs at offset 0.
   */
  function Index(text: string, s: string): (r: int)
    ensures r == -1 <==> forall j: nat :: !OccursAt(text, s, j)
    ensures r != -1 ==> 0 <= r && OccursAt(text, s, r)
    ensures r != -1 ==> forall j: nat :: j < r ==> !OccursAt(text, s, j)
  {
    IndexFrom(text, s, 0)
  }

  /** Go's `strings.Count(s, "\n")`: the number of newline bytes in `s`. */
  function NewlineCount(s: string): (n: nat)
    ensures n <= |s|
  {
    if s == [] then 0
    else NewlineCount(s[..|s| - 1]) + (if s[|s| - 1] == '\n' then 1 else 0)
  }

  /** The count is the multiplicity of the newline byte in the text. */
  lemma {:induction false} NewlineCountIsMultiplicity(s: string)
    ensures NewlineCount(s) == multiset(s)['\n']
  {
    if s != [] {
      NewlineCountIsMultiplicity(s[..|s| - 1]);
      assert s == s[..|s| - 1] + [s[|s| - 1]];
    }
  }

  /**
   Go's `strings.Split(s, "\n")`: the newline-separated segments of `s`, one
   more than there are newlines, none of them holding a newline.
   */
  function Split(s: string): (parts: seq<string>)
    ensures |parts| == NewlineCount(s) + 1
    ensures forall i :: 0 <= i < |parts| ==> '\n' !in parts[i]
  {
    if s == [] then [[]]
    else
      var init := Split(s[..|s| - 1]);
      var c := s[|s| - 1];
      if c == '\n' then init + [[]]
      else init[..|init| - 1] + [init[|init| - 1] + [c]]
  }

  /** Go's `strings.Join(parts, "\n")`, the inverse of `Split`. */
  function Join(parts: seq<string>): string
    requires parts != []
  {
    if |parts| == 1 then parts[0]
    else Join(parts[..|parts| - 1]) + "\n" + parts[|parts| - 1]
  }

  /** Joining one more segment puts a newline and that segment after the rest. */
  lemma JoinSnoc(parts: seq<string>, x: string)
    requires parts != []
    ensures Join(parts + [x]) == Join(parts) + "\n" + x
  {
    assert (parts + [x])[..|parts|] == parts;
  }

  /** `Split` of a text with one more byte: a new empty segment after a newline,
      otherwise the last segment grows by that byte. */
  lemma SplitSnoc(s: string, c: char)
    ensures var init := Split(s);
            Split(s + [c]) == if c == '\n' then init + [[]]
                              else init[..|init| - 1] + [init[|init| - 1] + [c]]
  {
    assert (s + [c])[..|s|] == s;
  }

  /** One byte appended to the text: `Join` undoes `Split` if it did so before. */
  lemma JoinSplitSnoc(s: string, c: char)
    requires Join(Split(s)) == s
    ensures Join(Split(s + [c])) == s + [c]
  {
    var init := Split(s);
    SplitSnoc(s, c);
    if c == '\n' {
      JoinSnoc(init, []);
    } else {
      var front, line := init[..|init| - 1], init[|init| - 1];
      assert init == front + [line];
      if front == [] {
        assert Split(s + [c]) == [line + [c]];
      } else {
        JoinSnoc(front, line);
        JoinSnoc(front, line + [c]);
      }
    }
  }

  /** Splitting at newlines and joining the segments again gives back the text. */
  lemma {:induction false} JoinSplit(s: string)
    ensures Join(Split(s)) == s
  {
    if s != [] {
      JoinSplit(s[..|s| - 1]);
      JoinSplitSnoc(s[..|s| - 1], s[|s| - 1]);
      assert s == s[..|s| - 1] + [s[|s| - 1]];
    }
  }

  /** The bytes after the last newline of `s` (all of `s` when it has none). */
  function LastLine(s: string): string
  {
    if s == [] then []
    else if s[|s| - 1] == '\n' then []
    else LastLine(s[..|s| - 1]) + [s[|s| - 1]]
  }

  /** The last segment `Split` produces is `LastLine`. */
  lemma {:induction false} SplitLast(s: string)
    ensures Split(s)[|Split(s)| - 1] == LastLine(s)
  {
    if s != [] {
      SplitLast(s[..|s| - 1]);
    }
  }

  /**
   The last segment of `Split(s)` is the longest newline-free suffix of `s`:
   it ends `s`, holds no newline, and is either all of `s` or preceded by a
   newline.
   */
  lemma {:induction false} LastSegment(s: string)
    ensures var last := LastLine(s);
            |last| <= |s| && s[|s| - |last|..] == last &&
            (|last| == |s| || s[|s| - |last| - 1] == '\n')
  {
    if s != [] {
      var s' := s[..|s| - 1];
      var c := s[|s| - 1];
      LastSegment(s');
      if c != '\n' {
        var prev, last := LastLine(s'), LastLine(s);
        assert s == s' + [c];
        assert s[|s| - |last|..] == s'[|s'| - |prev|..] + [c];
        if |prev| < |s'| {
          assert s[|s| - |last| - 1] == s'[|s'| - |prev| - 1];
        }
      }
    }
  }

  /**
   Where the search lands: the byte offset of the first match, the zero-based
   row (newlines before the match) and the column (bytes since the start of
   that row).
   */
  datatype Location = Location(index: nat, row: nat, col: nat)

  /**
   The search in the editor's Find command: the first occurrence of `s`, and
   the row and column the cursor is moved to, or `None` when `s` does not
   occur.
   */
  function Find(text: string, s: string): (r: Option<Location>)
    ensures r.None? <==> forall j: nat :: !OccursAt(text, s, j)
    ensures r.Some? ==> OccursAt(text, s, r.value.index)
    ensures r.Some? ==> forall j: nat :: j < r.value.index ==> !OccursAt(text, s, j)
  {
    var index := Index(text, s);
    if index == -1 then None
    else
      var prefix := text[..index];
      var row := NewlineCount(prefix);
      var line := Split(prefix)[row];
      Some(Location(index, row, |line|))
  }

  /**
   The row is the number of newline bytes before the match, and the column is
   the distance from the byte after the last such newline (or from the start
   of the text when there is none) to the match.
   */
  lemma FindRowCol(text: string, s: string)
    requires Find(text, s).Some?
    ensures var loc := Find(text, s).value;
            loc.index <= |text| &&
            loc.row == multiset(text[..loc.index])['\n'] &&
            loc.col <= loc.index &&
            (forall j :: loc.index - loc.col <= j < loc.index ==> text[j] != '\n') &&
            (loc.col == loc.index || text[loc.index - loc.col - 1] == '\n')
  {
    var index := Index(text, s);
    var prefix := text[..index];
    var loc := Find(text, s).value;
    assert loc.index == index && loc.row == NewlineCount(prefix);
    NewlineCountIsMultiplicity(prefix);
    SplitLast(prefix);
    assert loc.col == |LastLine(prefix)|;
    LastSegment(prefix);
    var line := LastLine(prefix);
    assert forall j :: index - loc.col <= j < index ==> text[j] == line[j - (index - loc.col)];
  }

  /**
   Go's `strings.Replace(text, s, s2, 1)`: the first occurrence of `s` is
   replaced by `s2`; when `s` does not occur the text comes back unchanged.
   An empty needle matches at offset 0, so `s2` is then put in front.
   */
  function ReplaceFirst(text: string, s: string, s2: string): (r: string)
    ensures Index(text, s) == -1 ==> r == text
    ensures Index(text, s) != -1 ==>
      var i := Index(text, s);
      |r| == |text| - |s| + |s2| && r[..i] == text[..i] &&
      r[i..i + |s2|] == s2 && r[i + |s2|..] == text[i + |s|..]
  {
    var i := Index(text, s);
    if i == -1 then text else text[..i] + s2 + text[i + |s|..]
  }

  /**
   Only the first occurrence is replaced: every later occurrence of `s` that
   does not overlap the first survives, shifted by the difference in length.
   */
  lemma LaterOccurrencesKept(text: string, s: string, s2: string, j: nat)
    requires Index(text, s) != -1
    requires Index(text, s) + |s| <= j
    requires OccursAt(text, s, j)
    ensures OccursAt(ReplaceFirst(text, s, s2), s, j - |s| + |s2|)
  {
    var i := Index(text, s);
    var r := ReplaceFirst(text, s, s2);
    var j' := j - |s| + |s2|;
    assert r[j'..j' + |s|] == r[i + |s2|..][j - i - |s|..j - i];
    assert text[j..j + |s|] == text[i + |s|..][j - i - |s|..j - i];
  }

  /** Replacing the first occurrence of `s` by `s` itself leaves the text as it was. */
  lemma ReplaceBySelf(text: string, s: string)
    ensures ReplaceFirst(text, s, s) == text
  {
    var i := Index(text, s);
    if i != -1 {
      assert text == text[..i] + text[i..i + |s|] + text[i + |s|..];
    }
  }

  /** Find reports "xxabcxx" / "abc" at offset 2, row 0, column 2. */
  lemma FindExample()
    ensures Find("xxabcxx", "abc") == Some(Location(2, 0, 2))
  {
    var text, s := "xxabcxx", "abc";
    assert text[0..3][0] != s[0] && text[1..4][0] != s[0] && text[2..5] == s;
    assert IndexFrom(text, s, 0) == IndexFrom(text, s, 1) == IndexFrom(text, s, 2) == 2;
    assert text[..2] == "xx" && "xx"[..1] == "x" && "x"[..0] == [];
    assert Split("x") == [[] + ['x']];
    assert Split("xx") == Split("x")[..0] + [Split("x")[0] + ['x']];
    assert Split("x")[0] + ['x'] == "xx";
  }

  /** Replace turns "ab ab" / "ab" -> "cd" into "cd ab". */
  lemma ReplaceExample()
    ensures ReplaceFirst("ab ab", "ab", "cd") == "cd ab"
  {
    assert OccursAt("ab ab", "ab", 0);
  }
}
