/** Paragraph splitting of the fallback parser: `re.split(r'\n\s*\n+', text)`
    followed by stripping every piece and dropping the empty ones.

    A match of `\n\s*\n+` starts at a newline whose following whitespace run
    holds a second newline (the leftmost such newline is the first one of
    the run), and, `\s*` being greedy, ends just after the LAST newline of
    that run. So the text is cut at every whitespace run that contains at
    least two newlines, i.e. at every blank line. */
module Paragraphs {
  import opened Base
  import opened Text

  /** The end of the whitespace run of `s` that starts at `k`. */
  function RunEnd(s: string, k: nat): (m: nat)
    requires k <= |s|
    ensures k <= m <= |s|
    ensures forall t :: k <= t < m ==> IsSpace(s[t])
    ensures m == |s| || !IsSpace(s[m])
    decreases |s| - k
  {
    if k < |s| && IsSpace(s[k]) then RunEnd(s, k + 1) else k
  }

  /** The index just after the last newline of `s[k..m]`, or `k` if it has none. */
  function AfterLastNewline(s: string, k: nat, m: nat): (q: nat)
    requires k <= m <= |s|
    ensures k <= q <= m
    ensures q > k ==> s[q - 1] == '\n'
    ensures forall t :: q <= t < m ==> s[t] != '\n'
    decreases m - k
  {
    if m == k then k
    else if s[m - 1] == '\n' then m
    else AfterLastNewline(s, k, m - 1)
  }

  /** A match of `\n\s*\n+` starts at `p`. */
  predicate SeparatorAt(s: string, p: nat)
    requires p < |s|
  {
    s[p] == '\n' && AfterLastNewline(s, p + 1, RunEnd(s, p + 1)) > p + 1
  }

  /** Where the match that starts at `p` ends. */
  function SeparatorEnd(s: string, p: nat): (q: nat)
    requires p < |s| && SeparatorAt(s, p)
    ensures p + 2 <= q <= |s|
  {
    AfterLastNewline(s, p + 1, RunEnd(s, p + 1))
  }

  /** The leftmost match at or after `k`, if any. */
  function FirstSeparator(s: string, k: nat): (p: Option<nat>)
    requires k <= |s|
    ensures p.Some? ==> k <= p.value < |s| && SeparatorAt(s, p.value)
    ensures p.Some? ==> forall t :: k <= t < p.value ==> !SeparatorAt(s, t)
    ensures p.None? ==> forall t :: k <= t < |s| ==> !SeparatorAt(s, t)
    decreases |s| - k
  {
    if k == |s| then None
    else if SeparatorAt(s, k) then Some(k)
    else FirstSeparator(s, k + 1)
  }

  /** `re.split(r'\n\s*\n+', s)`: the pieces between successive matches. */
  function SplitBlankLines(s: string): (pieces: seq<string>)
    ensures |pieces| >= 1
    decreases |s|
  {
    match FirstSeparator(s, 0)
    case None => [s]
    case Some(p) => [s[..p]] + SplitBlankLines(s[SeparatorEnd(s, p)..])
  }

  /** No two newlines of `s` are separated by whitespace only: `s` holds
      no blank line, so nothing in it matches `\n\s*\n+`. */
  predicate NoBlankLine(s: string) {
    forall a, b :: 0 <= a < b < |s| && s[a] == '\n' && s[b] == '\n' ==>
      exists t :: a < t < b && !IsSpace(s[t])
  }

  /** Two newlines with only whitespace between them start a match. */
  lemma BlankLineIsSeparator(s: string, a: nat, b: nat)
    requires a < b < |s| && s[a] == '\n' && s[b] == '\n'
    requires forall t :: a < t < b ==> IsSpace(s[t])
    ensures SeparatorAt(s, a)
  {
    var m := RunEnd(s, a + 1);
    assert IsSpace(s[b]);
    assert m > b;
    assert AfterLastNewline(s, a + 1, m) > b;
  }

  /** Text before the first match holds no blank line. */
  lemma PrefixNoBlankLine(s: string, p: nat)
    requires p <= |s|
    requires forall t :: 0 <= t < p ==> !SeparatorAt(s, t)
    ensures NoBlankLine(s[..p])
  {
    var piece := s[..p];
    forall a, b | 0 <= a < b < |piece| && piece[a] == '\n' && piece[b] == '\n'
      ensures exists t :: a < t < b && !IsSpace(piece[t])
    {
      if forall t :: a < t < b ==> IsSpace(s[t]) {
        BlankLineIsSeparator(s, a, b);
      }
      assert exists t :: a < t < b && !IsSpace(s[t]);
      var t :| a < t < b && !IsSpace(s[t]);
      assert piece[t] == s[t];
    }
  }

  /** The split is as fine as `re.split` makes it: no piece holds a blank line. */
  lemma {:induction false} SplitPiecesHaveNoBlankLine(s: string)
    ensures forall k :: 0 <= k < |SplitBlankLines(s)| ==> NoBlankLine(SplitBlankLines(s)[k])
    decreases |s|
  {
    match FirstSeparator(s, 0)
    case None =>
      PrefixNoBlankLine(s, |s|);
      assert s[..|s|] == s;
    case Some(p) =>
      PrefixNoBlankLine(s, p);
      var rest := s[SeparatorEnd(s, p)..];
      SplitPiecesHaveNoBlankLine(rest);
      assert SplitBlankLines(s) == [s[..p]] + SplitBlankLines(rest);
  }

  /** A fallback paragraph: non-empty, with no whitespace at either end. */
  predicate IsParagraph(p: string) {
    p != [] && IsStripped(p)
  }

  /** `[p.strip() for p in pieces if p.strip()]` */
  function StripAndDropEmpty(pieces: seq<string>): (ps: seq<string>)
    ensures |ps| <= |pieces|
    ensures forall k :: 0 <= k < |ps| ==> IsParagraph(ps[k])
    decreases |pieces|
  {
    if pieces == [] then []
    else
      var p := Strip(pieces[0]);
      TrimFacts(pieces[0], IsSpace);
      (if p != [] then [p] else []) + StripAndDropEmpty(pieces[1..])
  }

  /** The paragraph list the fallback parser works on. */
  function SplitParagraphs(content: string): (ps: seq<string>)
    ensures forall k :: 0 <= k < |ps| ==> IsParagraph(ps[k])
  {
    StripAndDropEmpty(SplitBlankLines(Strip(content)))
  }

  /** Stripping cannot introduce a line break. */
  lemma StripKeepsNoNewline(content: string)
    requires forall k :: 0 <= k < |content| ==> content[k] != '\n'
    ensures forall t :: 0 <= t < |Strip(content)| ==> Strip(content)[t] != '\n'
  {
    TrimFacts(content, IsSpace);
    var c := Strip(content);
    var a := |content| - |TrimLeft(content, IsSpace)|;
    forall t | 0 <= t < |c| ensures c[t] != '\n' {
      assert c[t] == content[a + t];
    }
  }

  /** Without a line break nothing matches, so the split is the text itself. */
  lemma NoNewlineSplitsOnce(s: string)
    requires forall k :: 0 <= k < |s| ==> s[k] != '\n'
    ensures SplitBlankLines(s) == [s]
  {
    assert FirstSeparator(s, 0).None?;
  }

  /** Text without a line break is at most one paragraph: the whole text, stripped. */
  lemma SingleLineIsOneParagraph(content: string)
    requires forall k :: 0 <= k < |content| ==> content[k] != '\n'
    ensures SplitParagraphs(content) == if Strip(content) == [] then [] else [Strip(content)]
  {
    var c := Strip(content);
    StripKeepsNoNewline(content);
    NoNewlineSplitsOnce(c);
    TrimFacts(content, IsSpace);
    TrimFacts(c, IsSpace);
    assert Strip(c) == c;
    assert StripAndDropEmpty([c]) == (if c != [] then [c] else []) + StripAndDropEmpty([]);
  }
}
