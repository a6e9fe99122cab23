/** Header locations as they are written in an `#include` line. */
module Headers {
  import opened Wrappers

  /** A candidate location for a header. `System(p)` is written `<p>` and is looked up on
      the system include path (the kernel tree); `Local(p)` is written `"p"` and is looked
      up next to the including file first. */
  datatype Candidate = System(path: string) | Local(path: string)

  /** A string with no blank in it. Every path the compatibility header names is one. */
  predicate Blankless(s: string) {
    ' ' !in s
  }

  /** The text of a candidate between `#include` and the end of the line, which is also
      what the preprocessor's stringizing operator yields for it in a diagnostic. */
  function Spelling(c: Candidate): (s: string)
    ensures |s| == |c.path| + 2
    ensures Blankless(c.path) ==> Blankless(s)
  {
    match c
    case System(p) => "<" + p + ">"
    case Local(p) => "\"" + p + "\""
  }

  /** Reads a spelling back: angle brackets make a system candidate, double quotes a
      local one, anything else is not a candidate. */
  function ParseSpelling(s: string): (r: Option<Candidate>)
    ensures r.Some? ==> Spelling(r.value) == s
  {
    if 2 <= |s| && s[0] == '<' && s[|s| - 1] == '>' then
      assert s == "<" + s[1..|s| - 1] + ">";
      Some(System(s[1..|s| - 1]))
    else if 2 <= |s| && s[0] == '"' && s[|s| - 1] == '"' then
      assert s == "\"" + s[1..|s| - 1] + "\"";
      Some(Local(s[1..|s| - 1]))
    else
      None
  }

  /** Spelling loses nothing: the candidate is recovered from its text. */
  lemma ParseSpellingRoundTrip(c: Candidate)
    ensures ParseSpelling(Spelling(c)) == Some(c)
  {
    var s := Spelling(c);
    assert s[1..|s| - 1] == c.path;
  }

  /** Two different candidates are never spelled alike, so a spelling names one location. */
  lemma SpellingInjective(a: Candidate, b: Candidate)
    ensures Spelling(a) == Spelling(b) <==> a == b
  {
    if Spelling(a) == Spelling(b) {
      ParseSpellingRoundTrip(a);
      ParseSpellingRoundTrip(b);
    }
  }
}
