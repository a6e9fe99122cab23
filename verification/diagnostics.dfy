/** The error diagnostic raised when the probe accepts no candidate of a header: the text
    `Header not found: ` followed by the spelling of every candidate, in declared order,
    separated by ` / `. */
module Diagnostics {
  import opened Wrappers
  import opened Headers

  const Prefix: string := "Header not found: "
  const Separator: string := " / "

  /** The parts one after another with a separator between neighbours. */
  function Join(parts: seq<string>): string
  {
    if |parts| == 0 then ""
    else if |parts| == 1 then parts[0]
    else parts[0] + Separator + Join(parts[1..])
  }

  /** A separator starts at position `i` of `s`. */
  predicate SeparatorAt(s: string, i: nat) {
    i + |Separator| <= |s| && s[i..i + |Separator|] == Separator
  }

  /** The first position at or after `from` where a separator starts. */
  function FindSeparator(s: string, from: nat): (r: Option<nat>)
    decreases |s| - from
    ensures r.Some? ==> from <= r.value && SeparatorAt(s, r.value)
    ensures r.Some? ==> forall j :: from <= j < r.value ==> !SeparatorAt(s, j)
    ensures r.None? ==> forall j :: from <= j ==> !SeparatorAt(s, j)
  {
    if |s| < from + |Separator| then None
    else if SeparatorAt(s, from) then Some(from)
    else FindSeparator(s, from + 1)
  }

  /** Cuts a string at every separator, reading left to right: no piece holds a separator,
      and joining the pieces again gives back the string, whatever it was. */
  function Split(s: string): (parts: seq<string>)
    decreases |s|
    ensures 1 <= |parts|
    ensures forall k :: 0 <= k < |parts| ==> FindSeparator(parts[k], 0).None?
    ensures Join(parts) == s
  {
    match FindSeparator(s, 0)
    case None => [s]
    case Some(i) =>
      var rest := Split(s[i + |Separator|..]);
      NoSeparatorBeforeFirst(s, i);
      assert Join([s[..i]] + rest) == s[..i] + Separator + Join(rest) by {
        assert ([s[..i]] + rest)[1..] == rest;
      }
      assert s == s[..i] + Separator + s[i + |Separator|..];
      [s[..i]] + rest
  }

  /** The text before the first separator holds no separator. */
  lemma NoSeparatorBeforeFirst(s: string, i: nat)
    requires FindSeparator(s, 0) == Some(i)
    ensures FindSeparator(s[..i], 0).None?
  {
    forall j | 0 <= j
      ensures !SeparatorAt(s[..i], j)
    {
      if SeparatorAt(s[..i], j) {
        assert s[..i][j..j + |Separator|] == s[j..j + |Separator|];
        assert SeparatorAt(s, j);
      }
    }
  }

  /** The spellings of a list of candidates, in the same order. */
  function Spellings(cs: seq<Candidate>): (ss: seq<string>)
    ensures |ss| == |cs|
    ensures forall i :: 0 <= i < |cs| ==> ss[i] == Spelling(cs[i])
  {
    seq(|cs|, i requires 0 <= i < |cs| => Spelling(cs[i]))
  }

  /** The diagnostic that names a list of candidates. */
  function Message(cs: seq<Candidate>): string
  {
    Prefix + Join(Spellings(cs))
  }

  /** Spelling a list is spelling its head, then its tail. */
  lemma SpellingsCons(c: Candidate, cs: seq<Candidate>)
    ensures Spellings([c] + cs) == [Spelling(c)] + Spellings(cs)
  {
  }

  /** Reads every part back as a candidate, failing if any part is not a spelling. */
  function ParseAll(parts: seq<string>): (r: Option<seq<Candidate>>)
    ensures r.Some? ==> Spellings(r.value) == parts
  {
    if |parts| == 0 then Some([])
    else
      var head := ParseSpelling(parts[0]);
      var tail := ParseAll(parts[1..]);
      if head.None? || tail.None? then None
      else
        SpellingsCons(head.value, tail.value);
        assert parts == [parts[0]] + parts[1..];
        Some([head.value] + tail.value)
  }

  /** Reads a diagnostic back into the candidates it names. Any list it returns is one
      whose diagnostic is exactly the text it was given. */
  function ParseMessage(msg: string): (r: Option<seq<Candidate>>)
    ensures r.Some? ==> Message(r.value) == msg
  {
    if |Prefix| <= |msg| && msg[..|Prefix|] == Prefix then
      assert msg == Prefix + msg[|Prefix|..];
      ParseAll(Split(msg[|Prefix|..]))
    else
      None
  }

  /** Every separator starts with a blank. */
  lemma SeparatorStartsWithBlank(s: string, i: nat)
    ensures SeparatorAt(s, i) ==> i < |s| && s[i] == ' '
  {
    if SeparatorAt(s, i) {
      assert s[i..i + |Separator|][0] == s[i];
    }
  }

  /** A blankless part followed by a separator: the first separator is the one right after
      the part, because every separator starts with a blank. */
  lemma FirstSeparatorAfterBlankless(p: string, rest: string)
    requires Blankless(p)
    ensures FindSeparator(p + Separator + rest, 0) == Some(|p|)
  {
    var s := p + Separator + rest;
    assert SeparatorAt(s, |p|) by {
      assert s[|p|..|p| + |Separator|] == Separator;
    }
    forall j | 0 <= j < |p|
      ensures !SeparatorAt(s, j)
    {
      assert s[j] == p[j];
      SeparatorStartsWithBlank(s, j);
    }
  }

  /** A blankless part holds no separator. */
  lemma NoSeparatorInBlankless(p: string)
    requires Blankless(p)
    ensures FindSeparator(p, 0) == None
  {
    forall j | 0 <= j
      ensures !SeparatorAt(p, j)
    {
      SeparatorStartsWithBlank(p, j);
    }
  }

  /** Splitting undoes joining, as long as there is at least one part and no part holds a
      blank (a blank in a part could be mistaken for the start of a separator). */
  lemma {:induction false} SplitJoin(parts: seq<string>)
    requires 1 <= |parts|
    requires forall i :: 0 <= i < |parts| ==> Blankless(parts[i])
    ensures Split(Join(parts)) == parts
    decreases |parts|
  {
    if |parts| == 1 {
      NoSeparatorInBlankless(parts[0]);
    } else {
      var s := Join(parts);
      assert s == parts[0] + Separator + Join(parts[1..]);
      FirstSeparatorAfterBlankless(parts[0], Join(parts[1..]));
      assert s[..|parts[0]|] == parts[0];
      assert s[|parts[0]| + |Separator|..] == Join(parts[1..]);
      SplitJoin(parts[1..]);
      assert parts == [parts[0]] + parts[1..];
    }
  }

  /** Every spelling is recovered from the list of spellings. */
  lemma {:induction false} ParseAllSpellings(cs: seq<Candidate>)
    ensures ParseAll(Spellings(cs)) == Some(cs)
    decreases |cs|
  {
    if |cs| > 0 {
      var ss := Spellings(cs);
      ParseSpellingRoundTrip(cs[0]);
      assert ss[1..] == Spellings(cs[1..]);
      ParseAllSpellings(cs[1..]);
      assert cs == [cs[0]] + cs[1..];
    }
  }

  /** The diagnostic names every candidate, in order: reading it back yields exactly the
      list it was made from, provided the list is not empty and no path holds a blank. */
  lemma {:induction false} MessageRoundTrip(cs: seq<Candidate>)
    requires 1 <= |cs|
    requires forall i :: 0 <= i < |cs| ==> Blankless(cs[i].path)
    ensures ParseMessage(Message(cs)) == Some(cs)
  {
    var msg := Message(cs);
    var ss := Spellings(cs);
    assert msg[..|Prefix|] == Prefix;
    assert msg[|Prefix|..] == Join(ss);
    SplitJoin(ss);
    ParseAllSpellings(cs);
  }

  /** Different candidate lists give different diagnostics. */
  lemma MessageInjective(a: seq<Candidate>, b: seq<Candidate>)
    requires 1 <= |a| && 1 <= |b|
    requires forall i :: 0 <= i < |a| ==> Blankless(a[i].path)
    requires forall i :: 0 <= i < |b| ==> Blankless(b[i].path)
    ensures Message(a) == Message(b) <==> a == b
  {
    MessageRoundTrip(a);
    MessageRoundTrip(b);
  }
}
