/**
 * The text clean-up `DateParser.parse_date` performs before interpreting a date:
 * strip the input, replace each boilerplate pattern by a space (stripping again
 * after each), then turn every `,`, `|` and `•` into a space and strip once more.
 *
 * Each pattern is matched as Python's `re` engine matches it with `re.IGNORECASE`
 * (case folding restricted to ASCII, `\w` restricted to ASCII), and `re.sub`
 * replaces the leftmost, non-overlapping matches from left to right.
 */
module Cleaning {
  import opened Text

  datatype Pattern =
    | ByAuthor              // `BY\s+[\w\s]+\s*`, and `by\s+[\w\s]+\s*` (the same under IGNORECASE)
    | VerbOn(verb: string)  // `Posted\s+on\s*`, `Published\s+on\s*`, `Updated\s+on\s*`
    | Bullet                // `•`
    | Pipe                  // `\|\s*`
    | SpacedDash            // `\s-\s`

  /** The patterns, in the order they are applied. */
  const Boilerplate: seq<Pattern> :=
    [ByAuthor, ByAuthor, VerbOn("posted"), VerbOn("published"), VerbOn("updated"), Bullet, Pipe, SpacedDash]

  /**
   * Length of the match of `p` that starts at position `i`, 0 when there is none
   * (no pattern here can match the empty string).
   */
  function MatchLength(p: Pattern, s: string, i: nat): (n: nat)
    requires i <= |s|
    ensures i + n <= |s|
  {
    match p
    case ByAuthor =>
      // `\s+` must leave at least one character for `[\w\s]+`, which then runs to the
      // end of the word-or-space run; the trailing `\s*` matches nothing more.
      if HasWordAt(s, i, "by") && i + 2 < |s| && IsSpace(s[i + 2]) then
        var run := Run(s, i + 2, WordOrSpace);
        if run >= 2 then 2 + run else 0
      else 0
    case VerbOn(verb) =>
      if HasWordAt(s, i, verb) then
        var gap := Run(s, i + |verb|, Space);
        var j := i + |verb| + gap;
        if gap >= 1 && HasWordAt(s, j, "on") then |verb| + gap + 2 + Run(s, j + 2, Space) else 0
      else 0
    case Bullet =>
      if i < |s| && s[i] == '•' then 1 else 0
    case Pipe =>
      if i < |s| && s[i] == '|' then 1 + Run(s, i + 1, Space) else 0
    case SpacedDash =>
      if i + 3 <= |s| && IsSpace(s[i]) && s[i + 1] == '-' && IsSpace(s[i + 2]) then 3 else 0
  }

  /** The match length of `p` at every position of `s`, and one past the end. */
  function Lengths(p: Pattern, s: string): (lens: seq<nat>)
    ensures |lens| == |s| + 1
    ensures forall j :: 0 <= j <= |s| ==> lens[j] == MatchLength(p, s, j)
  {
    seq(|s| + 1, j requires 0 <= j <= |s| => MatchLength(p, s, j))
  }

  /** No match runs past the end of the text. */
  predicate Fits(s: string, lens: seq<nat>) {
    |lens| == |s| + 1 && forall j :: 0 <= j <= |s| ==> j + lens[j] <= |s|
  }

  /**
   * The scan of `re.sub` from position `i`, given the match length at every
   * position: a match becomes one space and the scan resumes after it, any
   * other character is copied.
   */
  function ReplaceFrom(s: string, lens: seq<nat>, i: nat): (r: string)
    requires Fits(s, lens) && i <= |s|
    ensures |r| <= |s| - i
    decreases |s| - i
  {
    if i == |s| then []
    else if lens[i] > 0 then [' '] + ReplaceFrom(s, lens, i + lens[i])
    else [s[i]] + ReplaceFrom(s, lens, i + 1)
  }

  /** `re.sub(p, ' ', s, flags=re.IGNORECASE)`. */
  function Substitute(p: Pattern, s: string): (r: string)
    ensures |r| <= |s|
  {
    ReplaceFrom(s, Lengths(p, s), 0)
  }

  /** Where nothing matches, the scan copies the text unchanged. */
  lemma {:induction false} ReplaceNoMatch(s: string, lens: seq<nat>, i: nat)
    requires Fits(s, lens) && i <= |s|
    requires forall j :: i <= j < |s| ==> lens[j] == 0
    ensures ReplaceFrom(s, lens, i) == s[i..]
    decreases |s| - i
  {
    if i < |s| {
      ReplaceNoMatch(s, lens, i + 1);
    }
  }

  /** Where `p` matches nowhere, `re.sub` returns the text unchanged. */
  lemma SubstituteNoMatch(p: Pattern, s: string)
    requires forall j :: 0 <= j < |s| ==> MatchLength(p, s, j) == 0
    ensures Substitute(p, s) == s
  {
    ReplaceNoMatch(s, Lengths(p, s), 0);
  }

  /** Every character the scan emits is a space or a character of the text where no match starts. */
  lemma {:induction false} ReplaceKeeps(s: string, lens: seq<nat>, i: nat, c: char)
    requires Fits(s, lens) && i <= |s|
    requires c != ' ' && c in ReplaceFrom(s, lens, i)
    ensures exists j :: i <= j < |s| && s[j] == c && lens[j] == 0
    decreases |s| - i
  {
    assert i < |s|;
    if lens[i] > 0 {
      ReplaceKeeps(s, lens, i + lens[i], c);
    } else if s[i] != c {
      ReplaceKeeps(s, lens, i + 1, c);
    } else {
      assert s[i] == c && lens[i] == 0;
    }
  }

  /** After the `•` substitution no bullet is left. */
  lemma NoBulletLeft(s: string)
    ensures '•' !in Substitute(Bullet, s)
  {
    if '•' in Substitute(Bullet, s) {
      ReplaceKeeps(s, Lengths(Bullet, s), 0, '•');
    }
  }

  /** After the `\|\s*` substitution no pipe is left. */
  lemma NoPipeLeft(s: string)
    ensures '|' !in Substitute(Pipe, s)
  {
    if '|' in Substitute(Pipe, s) {
      ReplaceKeeps(s, Lengths(Pipe, s), 0, '|');
    }
  }

  /** One pass of the loop at lines 42-44: substitute, then strip. */
  function CleanStep(p: Pattern, s: string): (r: string)
    ensures |r| <= |s|
  {
    Strip(Substitute(p, s))
  }

  /** Applying the patterns in order, stripping after each (lines 42-44). */
  function ApplyPatterns(ps: seq<Pattern>, s: string): (r: string)
    ensures |r| <= |s|
    decreases |ps|
  {
    if |ps| == 0 then s else CleanStep(ps[|ps| - 1], ApplyPatterns(ps[..|ps| - 1], s))
  }

  predicate IsSeparator(c: char) {
    c == ',' || c == '|' || c == '•'
  }

  /** `re.sub(r'[,|•]', ' ', s)`. */
  function ReplaceSeparators(s: string): (r: string)
    ensures |r| == |s|
    ensures forall j :: 0 <= j < |s| ==> r[j] == (if IsSeparator(s[j]) then ' ' else s[j])
  {
    if |s| == 0 then [] else [if IsSeparator(s[0]) then ' ' else s[0]] + ReplaceSeparators(s[1..])
  }

  /** The text the date parser interprets: everything of lines 33-47. */
  function CleanedText(dateText: string): (r: string)
    ensures |r| <= |dateText|
  {
    Strip(ReplaceSeparators(ApplyPatterns(Boilerplate, Strip(dateText))))
  }

  predicate SeparatorFree(s: string) {
    forall j :: 0 <= j < |s| ==> !IsSeparator(s[j])
  }

  /** The cleaned text holds no comma, pipe or bullet, and no surrounding whitespace. */
  lemma CleanedTextShape(dateText: string)
    ensures SeparatorFree(CleanedText(dateText))
    ensures Strip(CleanedText(dateText)) == CleanedText(dateText)
  {
    var r := ReplaceSeparators(ApplyPatterns(Boilerplate, Strip(dateText)));
    StripKeepsSeparatorFree(r);
    StripIdempotent(r);
  }

  lemma StripKeepsSeparatorFree(s: string)
    requires SeparatorFree(s)
    ensures SeparatorFree(Strip(s))
  {
    var c := Strip(s);
    forall j | 0 <= j < |c| ensures !IsSeparator(c[j]) {
      assert c[j] == s[StripOffset(s) + j];
    }
  }

  /** The `for pattern in patterns` loop: each substitution is followed by a strip. */
  method RemovePatterns(patterns: seq<Pattern>, text: string) returns (cleaned: string)
    ensures cleaned == ApplyPatterns(patterns, text)
  {
    cleaned := text;
    for k := 0 to |patterns|
      invariant cleaned == ApplyPatterns(patterns[..k], text)
    {
      assert patterns[..k + 1][..k] == patterns[..k];
      cleaned := CleanStep(patterns[k], cleaned);
    }
    assert patterns[..|patterns|] == patterns;
  }

  /** The clean-up of `parse_date` (lines 33-47). */
  method CleanDateText(dateText: string) returns (cleaned: string)
    ensures cleaned == CleanedText(dateText)
    ensures SeparatorFree(cleaned)
  {
    cleaned := RemovePatterns(Boilerplate, Strip(dateText));
    cleaned := Strip(ReplaceSeparators(cleaned));
    CleanedTextShape(dateText);
  }
}
