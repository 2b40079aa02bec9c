/**
 Bracket auto-closing in the editor's change handler: when the text just typed
 ends in an opening bracket, the matching closing bracket is appended.
 */
module Brackets {

  /** The three opening brackets the handler reacts to, each with its closer. */
  const Closers: map<char, char> := map['{' := '}', '(' := ')', '[' := ']']

  /** The text after auto-closing: `s` plus the closer of its last byte, if any. */
  function AutoClose(s: string): (r: string)
    ensures |s| <= |r| <= |s| + 1 && r[..|s|] == s
    ensures |r| == |s| + 1 <==> |s| > 0 && s[|s| - 1] in Closers
    ensures |r| == |s| + 1 ==> r[|s|] == Closers[s[|s| - 1]]
  {
    if |s| > 0 && s[|s| - 1] in Closers then s + [Closers[s[|s| - 1]]] else s
  }

  /**
   The three cases the handler switches on: `{`, `(` and `[` at the end get
   `}`, `)` and `]` appended; any other last byte, and the empty text, leave
   the text as it was.
   */
  lemma AutoCloseCases(s: string)
    ensures |s| > 0 && s[|s| - 1] == '{' ==> AutoClose(s) == s + "}"
    ensures |s| > 0 && s[|s| - 1] == '(' ==> AutoClose(s) == s + ")"
    ensures |s| > 0 && s[|s| - 1] == '[' ==> AutoClose(s) == s + "]"
    ensures s == [] || s[|s| - 1] !in "{([" ==> AutoClose(s) == s
  {
  }

  /** A closer is never an opener, so a non-empty result never ends in an opener. */
  lemma AutoCloseEndsClosed(s: string)
    ensures |AutoClose(s)| > 0 ==> AutoClose(s)[|AutoClose(s)| - 1] !in Closers
  {
  }

  /** Auto-closing twice appends no second closer. */
  lemma AutoCloseIdempotent(s: string)
    ensures AutoClose(AutoClose(s)) == AutoClose(s)
  {
    AutoCloseEndsClosed(s);
  }
}
