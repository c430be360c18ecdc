/** `format_irc_response`: collapse every run of whitespace to one space
    (`' '.join(response.split())`), then cut the line to the IRC limit of
    400 characters, marking a cut with "...". */
module IrcFormat {
  import opened Text

  const MaxLineLength: nat := 400
  const Ellipsis: string := "..."
  /** Characters of collapsed text kept when a line is cut. */
  const KeptOnCut: nat := MaxLineLength - |Ellipsis|

  /** An element of `str.split()`'s result: non-empty, no whitespace. */
  predicate IsWord(w: string) {
    |w| > 0 && forall i :: 0 <= i < |w| ==> !IsSpace(w[i])
  }

  /** Clean IRC text: no whitespace at either end, every whitespace
      character is a plain space, and no two whitespace characters in a row. */
  predicate Normalized(s: string) {
    && (|s| > 0 ==> !IsSpace(s[0]) && !IsSpace(s[|s| - 1]))
    && (forall i :: 0 <= i < |s| && IsSpace(s[i]) ==> s[i] == ' ')
    && (forall i, j :: 0 <= i < |s| && j == i + 1 && j < |s| ==> !(IsSpace(s[i]) && IsSpace(s[j])))
  }

  /** Length of the run of whitespace that opens `s`. */
  function LeadingSpace(s: string): (k: nat)
    ensures k <= |s|
    ensures forall i :: 0 <= i < k ==> IsSpace(s[i])
    ensures k < |s| ==> !IsSpace(s[k])
  {
    if s == [] || !IsSpace(s[0]) then 0 else 1 + LeadingSpace(s[1..])
  }

  /** Length of the run of non-whitespace that opens `s`. */
  function WordLength(s: string): (n: nat)
    ensures n <= |s|
    ensures forall i :: 0 <= i < n ==> !IsSpace(s[i])
    ensures n < |s| ==> IsSpace(s[n])
  {
    if s == [] || IsSpace(s[0]) then 0 else 1 + WordLength(s[1..])
  }

  /** `s` without its leading whitespace. */
  function TrimStart(s: string): (t: string)
    ensures |t| <= |s|
    ensures |t| > 0 ==> !IsSpace(t[0])
  {
    s[LeadingSpace(s)..]
  }

  /** Python's `str.split()` with no separator: the maximal runs of
      non-whitespace, in order. */
  function Split(s: string): (words: seq<string>)
    ensures forall i :: 0 <= i < |words| ==> IsWord(words[i])
    decreases |s|
  {
    var t := TrimStart(s);
    if t == [] then []
    else
      var n := WordLength(t);
      [t[..n]] + Split(t[n..])
  }

  /** Python's `' '.join(words)`: it begins with the first word. */
  function Join(words: seq<string>): (r: string)
    ensures |words| > 0 ==> |r| >= |words[0]| && r[..|words[0]|] == words[0]
  {
    if |words| == 0 then ""
    else if |words| == 1 then words[0]
    else words[0] + " " + Join(words[1..])
  }

  /** `' '.join(s.split())`: clean text with exactly the words of `s`. */
  function Collapse(s: string): (r: string)
    ensures Normalized(r)
    ensures Split(r) == Split(s)
  {
    JoinNormalized(Split(s));
    SplitJoin(Split(s));
    Join(Split(s))
  }

  /** The formatter itself. */
  function FormatIrcResponse(response: string): (r: string)
    ensures |r| <= MaxLineLength
    ensures Normalized(r)
  {
    var collapsed := Collapse(response);
    if |collapsed| > MaxLineLength then
      TruncatedNormalized(collapsed);
      collapsed[..KeptOnCut] + Ellipsis
    else collapsed
  }

  // ---------------------------------------------------------------------
  // What `Split` returns: the input is its words with whitespace between.

  /** Every character of `g` is whitespace. */
  predicate AllSpace(g: string) {
    forall i :: 0 <= i < |g| ==> IsSpace(g[i])
  }

  /** `gaps[0] + words[0] + gaps[1] + ... + words[n - 1] + gaps[n]`. */
  function Weave(gaps: seq<string>, words: seq<string>): string
    requires |gaps| == |words| + 1
    decreases |words|
  {
    if words == [] then gaps[0] else gaps[0] + words[0] + Weave(gaps[1..], words[1..])
  }

  /** `s` consists of `words` in order, with whitespace runs `gaps` around
      them: any run before the first word and after the last, a non-empty
      run between each two. */
  predicate SeparatedBy(s: string, words: seq<string>, gaps: seq<string>) {
    && |gaps| == |words| + 1
    && (forall i :: 0 <= i < |gaps| ==> AllSpace(gaps[i]))
    && (forall i :: 0 < i < |words| ==> gaps[i] != [])
    && s == Weave(gaps, words)
  }

  /** The whitespace runs of `s` before, between and after its words. */
  function Gaps(s: string): seq<string>
    decreases |s|
  {
    var k := LeadingSpace(s);
    if k == |s| then [s]
    else [s[..k]] + Gaps(s[k..][WordLength(s[k..])..])
  }

  /** A whitespace run and a word in front of separated words. */
  lemma SeparatedCons(g: string, w: string, rest: string, words: seq<string>, gaps: seq<string>)
    requires AllSpace(g) && SeparatedBy(rest, words, gaps)
    requires words != [] ==> gaps[0] != []
    ensures SeparatedBy(g + w + rest, [w] + words, [g] + gaps)
  {
    var words', gaps' := [w] + words, [g] + gaps;
    assert words'[1..] == words && gaps'[1..] == gaps;
    forall i | 0 <= i < |gaps'|
      ensures AllSpace(gaps'[i])
    {
      if i > 0 { assert gaps'[i] == gaps[i - 1]; }
    }
    forall i | 0 < i < |words'|
      ensures gaps'[i] != []
    {
      assert gaps'[i] == gaps[i - 1];
    }
  }

  /** `Split` loses nothing and merges nothing: the input is exactly its
      words, in order, separated by whitespace. */
  lemma {:induction false} SplitSeparates(s: string)
    ensures SeparatedBy(s, Split(s), Gaps(s))
    decreases |s|
  {
    var k := LeadingSpace(s);
    if k < |s| {
      var t := s[k..];
      var n := WordLength(t);
      var rest := t[n..];
      SplitStep(s);
      SplitSeparates(rest);
      assert AllSpace(s[..k]);
      SeparatedCons(s[..k], t[..n], rest, Split(rest), Gaps(rest));
      assert s == s[..k] + t[..n] + rest;
    }
  }

  /** How `Split` and `Gaps` take the first whitespace run and word off `s`. */
  lemma SplitStep(s: string)
    requires LeadingSpace(s) < |s|
    ensures var k := LeadingSpace(s); var t := s[k..]; var rest := t[WordLength(t)..];
      && Split(s) == [t[..WordLength(t)]] + Split(rest)
      && Gaps(s) == [s[..k]] + Gaps(rest)
      && (Split(rest) != [] ==> Gaps(rest)[0] != [])
  {
    var t := s[LeadingSpace(s)..];
    assert TrimStart(s) == t;
    var rest := t[WordLength(t)..];
    if Split(rest) != [] {
      GapsHead(rest);
    }
  }

  /** Text that opens with whitespace has a non-empty first gap. */
  lemma GapsHead(s: string)
    requires Split(s) != []
    requires IsSpace(s[0])
    ensures Gaps(s)[0] != []
  {
    assert LeadingSpace(s) > 0;
  }

  // ---------------------------------------------------------------------
  // Splitting and joining are inverse to each other.

  /** Whitespace at the front does not change the words. */
  lemma SplitSkipsSpace(s: string)
    requires |s| > 0 && IsSpace(s[0])
    ensures Split(s) == Split(s[1..])
  {
    assert TrimStart(s) == TrimStart(s[1..]);
  }

  /** A word followed by whitespace or by nothing is where `WordLength`
      stops. */
  lemma {:induction false} WordLengthOfWord(s: string, w: string)
    requires IsWord(w) && |w| <= |s| && s[..|w|] == w
    requires |w| < |s| ==> IsSpace(s[|w|])
    ensures WordLength(s) == |w|
    decreases |w|
  {
    assert s[0] == w[0];
    if |w| > 1 {
      assert s[1..][..|w| - 1] == w[1..];
      assert |w| < |s| ==> s[1..][|w| - 1] == s[|w|];
      WordLengthOfWord(s[1..], w[1..]);
    }
  }

  /** Joining words gives clean text that starts with the first word. */
  lemma {:induction false} JoinNormalized(words: seq<string>)
    requires forall i :: 0 <= i < |words| ==> IsWord(words[i])
    ensures Normalized(Join(words))
  {
    if |words| > 1 {
      var w, rest := words[0], Join(words[1..]);
      JoinNormalized(words[1..]);
      var s := w + " " + rest;
      assert s == Join(words);
      assert rest[0] == words[1][0];
      forall i | 0 <= i < |s| && IsSpace(s[i])
        ensures s[i] == ' '
      {
        if i > |w| { assert s[i] == rest[i - |w| - 1]; }
      }
      forall i, j | 0 <= i && j == i + 1 && j < |s|
        ensures !(IsSpace(s[i]) && IsSpace(s[j]))
      {
        if i > |w| {
          assert s[i] == rest[i - |w| - 1] && s[j] == rest[j - |w| - 1];
        }
      }
      assert s[..|w|] == w;
    }
  }

  /** A word, a space, then more text: the word comes off first. */
  lemma SplitWordSpace(w: string, rest: string)
    requires IsWord(w)
    ensures Split(w + " " + rest) == [w] + Split(rest)
  {
    var s := w + " " + rest;
    assert LeadingSpace(s) == 0 by { assert s[0] == w[0]; }
    assert s[..|w|] == w;
    WordLengthOfWord(s, w);
    assert s[0..0 + |w|] == w;
    assert s[0 + |w|..] == " " + rest;
    SplitSkipsSpace(" " + rest);
    assert (" " + rest)[1..] == rest;
  }

  /** Round trip one way: splitting joined words gives the words back. */
  lemma {:induction false} SplitJoin(words: seq<string>)
    requires forall i :: 0 <= i < |words| ==> IsWord(words[i])
    ensures Split(Join(words)) == words
  {
    if |words| == 1 {
      var w := words[0];
      assert LeadingSpace(w) == 0;
      WordLengthOfWord(w, w);
      assert w[0..0 + |w|] == w;
    } else if |words| > 1 {
      SplitWordSpace(words[0], Join(words[1..]));
      SplitJoin(words[1..]);
    }
  }

  /** Clean non-empty text splits into its first word and the words of
      what follows the single space after it. */
  lemma SplitClean(s: string)
    requires Normalized(s) && |s| > 0
    ensures var n := WordLength(s);
      0 < n <= |s| &&
      Split(s) == [s[..n]] + (if n == |s| then [] else Split(s[n + 1..]))
  {
    assert !IsSpace(s[0]);
    assert TrimStart(s) == s;
    var n := WordLength(s);
    if n < |s| {
      assert s[n] == ' ';
      assert s[n..][1..] == s[n + 1..];
      SplitSkipsSpace(s[n..]);
    }
  }

  /** What follows a space inside clean text is clean. */
  lemma NormalizedAfterSpace(s: string, n: nat)
    requires Normalized(s) && n < |s| && IsSpace(s[n])
    ensures Normalized(s[n + 1..]) && |s[n + 1..]| > 0
    ensures s == s[..n] + " " + s[n + 1..]
  {
    var tail := s[n + 1..];
    forall i | 0 <= i < |tail| && IsSpace(tail[i])
      ensures tail[i] == ' '
    {
      assert tail[i] == s[n + 1 + i];
    }
    forall i, j | 0 <= i < |tail| && j == i + 1 && j < |tail|
      ensures !(IsSpace(tail[i]) && IsSpace(tail[j]))
    {
      assert tail[i] == s[n + 1 + i] && tail[j] == s[n + 1 + j];
    }
    assert s[n] == ' ';
  }

  /** Joining a word in front of further words puts one space between. */
  lemma JoinCons(w: string, words: seq<string>)
    requires |words| > 0
    ensures Join([w] + words) == w + " " + Join(words)
  {
    assert ([w] + words)[1..] == words;
  }

  /** Round trip the other way: clean text is the join of its words. */
  lemma {:induction false} JoinSplit(s: string)
    requires Normalized(s)
    ensures Join(Split(s)) == s
    decreases |s|
  {
    if |s| > 0 {
      SplitClean(s);
      var n := WordLength(s);
      if n < |s| {
        var tail := s[n + 1..];
        NormalizedAfterSpace(s, n);
        SplitClean(tail);
        JoinSplit(tail);
        JoinCons(s[..n], Split(tail));
      }
    }
  }

  // ---------------------------------------------------------------------
  // Properties of the collapsed text and of the formatter.

  /** Collapsing twice is collapsing once. */
  lemma CollapseIdempotent(s: string)
    ensures Collapse(Collapse(s)) == Collapse(s)
  {
  }

  /** Text collapses to nothing exactly when it has no words. */
  lemma CollapseEmptyIff(s: string)
    ensures Collapse(s) == "" <==> Split(s) == []
  {
    JoinNormalized(Split(s));
  }

  /** Cutting clean text and appending "..." keeps it clean. */
  lemma TruncatedNormalized(c: string)
    requires Normalized(c) && |c| > MaxLineLength
    ensures Normalized(c[..KeptOnCut] + Ellipsis)
  {
    var r := c[..KeptOnCut] + Ellipsis;
    forall i | 0 <= i < |r| && IsSpace(r[i])
      ensures r[i] == ' '
    {
      assert r[i] == c[i];
    }
    forall i, j | 0 <= i && j == i + 1 && j < |r|
      ensures !(IsSpace(r[i]) && IsSpace(r[j]))
    {
      if j < KeptOnCut { assert r[i] == c[i] && r[j] == c[j]; }
    }
  }

  /** A text whose collapsed form fits is sent collapsed, with the same words. */
  lemma FormatKeepsShortText(response: string)
    requires |Collapse(response)| <= MaxLineLength
    ensures FormatIrcResponse(response) == Collapse(response)
    ensures Split(FormatIrcResponse(response)) == Split(response)
  {
  }

  /** A text whose collapsed form is too long is cut to exactly 400
      characters: the first 397 collapsed characters, then "...". */
  lemma FormatCutsLongText(response: string)
    requires |Collapse(response)| > MaxLineLength
    ensures |FormatIrcResponse(response)| == MaxLineLength
    ensures FormatIrcResponse(response)[..KeptOnCut] == Collapse(response)[..KeptOnCut]
    ensures FormatIrcResponse(response)[KeptOnCut..] == Ellipsis
  {
  }

  /** Formatting formatted text changes nothing. */
  lemma FormatIdempotent(response: string)
    ensures FormatIrcResponse(FormatIrcResponse(response)) == FormatIrcResponse(response)
  {
    var r := FormatIrcResponse(response);
    JoinSplit(r);
  }

  /** The formatter yields the empty line exactly when the input has no words. */
  lemma FormatEmptyIff(response: string)
    ensures FormatIrcResponse(response) == "" <==> Split(response) == []
  {
    CollapseEmptyIff(response);
  }
}
