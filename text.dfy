/** The few Python string primitives the bot relies on: `str.isspace` as used
    by `str.split()`, `str.lower()` and the substring test `p in s`.
    Only the ASCII part of Python's Unicode tables is modelled. */
module Text {

  /** Python's `str.isspace()` on code points below 128: tab, line feed,
      vertical tab, form feed, carriage return, the four information
      separators 0x1C..0x1F, and the space. */
  predicate IsSpace(c: char) {
    9 <= c as int <= 13 || 28 <= c as int <= 32
  }

  /** `str.lower()` on one character, ASCII letters only. */
  function LowerChar(c: char): (d: char)
    ensures 'A' <= c <= 'Z' ==> 'a' <= d <= 'z' && d as int == c as int + 32
    ensures !('A' <= c <= 'Z') ==> d == c
  {
    if 'A' <= c <= 'Z' then (c as int + 32) as char else c
  }

  /** `str.lower()`: each ASCII capital becomes its own lowercase letter,
      every other character stays. */
  function Lower(s: string): (r: string)
    ensures |r| == |s|
    ensures forall i :: 0 <= i < |r| ==> !('A' <= r[i] <= 'Z')
    ensures forall i :: 0 <= i < |s| && !('A' <= s[i] <= 'Z') ==> r[i] == s[i]
    ensures forall i :: 0 <= i < |s| && 'A' <= s[i] <= 'Z' ==> r[i] as int == s[i] as int + 32
  {
    seq(|s|, i requires 0 <= i < |s| => LowerChar(s[i]))
  }

  /** Python's `p in s` for strings: some window of `s` equals `p`
      (so the empty string is in every string). */
  function Contains(s: string, p: string): (r: bool)
    ensures p == [] ==> r
    ensures r ==> |p| <= |s|
    decreases |s|
  {
    if |p| > |s| then false
    else if s[..|p|] == p then true
    else Contains(s[1..], p)
  }

  /** Python's `any(w in s for w in words)`. */
  predicate ContainsAny(words: seq<string>, s: string) {
    exists i :: 0 <= i < |words| && Contains(s, words[i])
  }

  /** `p` occurs in `s` starting at position `i`. */
  predicate OccursAt(s: string, p: string, i: int) {
    0 <= i && i + |p| <= |s| && s[i..i + |p|] == p
  }

  /** Occurrences in `s[1..]` are the occurrences in `s` one place later. */
  lemma OccursShift(s: string, p: string, i: int)
    requires |s| > 0 && i >= 1
    ensures OccursAt(s, p, i) <==> OccursAt(s[1..], p, i - 1)
  {
    if i + |p| <= |s| {
      assert s[1..][i - 1..i - 1 + |p|] == s[i..i + |p|];
    }
  }

  /** The search `Contains` finds exactly the positions at which `p` occurs. */
  lemma {:induction false} ContainsIff(s: string, p: string)
    ensures Contains(s, p) <==> exists i :: OccursAt(s, p, i)
    decreases |s|
  {
    if |p| > |s| {
    } else if s[..|p|] == p {
      assert OccursAt(s, p, 0);
    } else {
      ContainsIff(s[1..], p);
      if Contains(s[1..], p) {
        var i :| OccursAt(s[1..], p, i);
        OccursShift(s, p, i + 1);
      } else {
        forall i | OccursAt(s, p, i)
          ensures false
        {
          if i > 0 {
            OccursShift(s, p, i);
          }
        }
      }
    }
  }

  /** An occurrence at a known position makes `Contains` true. */
  lemma ContainsAt(s: string, p: string, i: nat)
    requires OccursAt(s, p, i)
    ensures Contains(s, p)
  {
    ContainsIff(s, p);
  }

  /** Lower-casing twice is lower-casing once. */
  lemma LowerIdempotent(s: string)
    ensures Lower(Lower(s)) == Lower(s)
  {
  }

  /** Lower-casing commutes with taking a window. */
  lemma LowerSlice(s: string, i: nat, j: nat)
    requires i <= j <= |s|
    ensures Lower(s)[i..j] == Lower(s[i..j])
  {
  }

  /** Lower-casing preserves occurrences: a verbatim occurrence of `p` in `s`
      is an occurrence of `Lower(p)` in `Lower(s)`. */
  lemma LowerKeepsOccurrence(s: string, p: string)
    requires Contains(s, p)
    ensures Contains(Lower(s), Lower(p))
  {
    ContainsIff(s, p);
    var i :| OccursAt(s, p, i);
    LowerSlice(s, i, i + |p|);
    ContainsAt(Lower(s), Lower(p), i);
  }
}
