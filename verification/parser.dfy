/** The parsing cascade of `main/services/parser.py`.

    `parse_chat` strips its input and tries, in this order: the JSON stage
    (output of the browser scraper), an AI stage (an external model call,
    here an oracle), and a heuristic fallback that pairs a short paragraph
    with the long paragraphs that follow it. `validate_parsed_sessions` is
    the gate the caller applies afterwards. */
module Parser {
  import opened Base
  import opened Text
  import opened Paragraphs

  /** One question/answer exchange; `order` is its position, starting at 1. */
  datatype ParsedSession = ParsedSession(order: nat, question: string, answer: string)

  /** The sessions of a chat together with its metadata. */
  datatype ParseResult = ParseResult(sessions: seq<ParsedSession>, title: string, platform: string)

  const UnknownPlatform := "unknown"

  /** Orders strictly increase along the sequence (hence are distinct). */
  predicate OrdersIncreasing(ss: seq<ParsedSession>) {
    forall i, j :: 0 <= i < j < |ss| ==> ss[i].order < ss[j].order
  }

  /** What every stage of the cascade delivers: positive, strictly increasing
      orders, and a question and an answer that are non-empty and stripped. */
  predicate WellFormed(ss: seq<ParsedSession>) {
    && OrdersIncreasing(ss)
    && forall i :: 0 <= i < |ss| ==> ss[i].order >= 1 && IsParagraph(ss[i].question) && IsParagraph(ss[i].answer)
  }

  // ---------------------------------------------------------------------
  // JSON stage
  // ---------------------------------------------------------------------

  /** One element of a session array. A missing `question` or `answer` key
      reads as "" (`item.get('question', '')`), so it is the empty string here. */
  datatype Item = Item(question: string, answer: string)

  /** What `json.loads` produced: a decode error, an array of session
      objects, an object with `title`, `platform` and `sessions` keys (a
      missing `title` or `sessions` reads as "" or []; a missing `platform`
      is `None`), or any other JSON value. */
  datatype Json =
    | Malformed
    | JsonArray(items: seq<Item>)
    | JsonObject(title: string, platform: Option<string>, sessions: seq<Item>)
    | JsonOther

  /** The quick check before decoding: the text starts with `{` or `[`. */
  predicate LooksLikeJson(content: string) {
    |content| > 0 && (content[0] == '{' || content[0] == '[')
  }

  /** An item is kept when its question and its answer both have a
      non-whitespace character. */
  predicate Kept(it: Item) {
    Strip(it.question) != [] && Strip(it.answer) != []
  }

  /** The session built from an item numbered `order`. */
  function ItemSession(it: Item, order: nat): ParsedSession {
    ParsedSession(order, Strip(it.question), Strip(it.answer))
  }

  /** `s` is the session of a kept item of `items`, numbered by its
      position counted after `before` earlier items. */
  predicate FromKeptItem(items: seq<Item>, before: nat, s: ParsedSession) {
    && before < s.order <= before + |items|
    && Kept(items[s.order - before - 1])
    && s == ItemSession(items[s.order - before - 1], s.order)
  }

  /** The loop over `enumerate(items, 1)`: the kept items, stripped, each
      numbered by its 1-based position in the source array (`before` is the
      number of items already consumed), so the numbering skips dropped items. */
  function KeepItems(items: seq<Item>, before: nat): (r: seq<ParsedSession>)
    ensures |r| <= |items|
    ensures forall i :: 0 <= i < |r| ==> before < r[i].order <= before + |items|
    ensures OrdersIncreasing(r)
    decreases |items|
  {
    if items == [] then []
    else
      var rest := KeepItems(items[1..], before + 1);
      if Kept(items[0]) then
        var r := [ItemSession(items[0], before + 1)] + rest;
        assert forall i :: 1 <= i < |r| ==> r[i] == rest[i - 1];
        r
      else rest
  }

  /** Every session of the filter comes from a kept item of `items`. */
  lemma {:induction false} KeepItemsSound(items: seq<Item>, before: nat)
    ensures forall i :: 0 <= i < |KeepItems(items, before)| ==> FromKeptItem(items, before, KeepItems(items, before)[i])
    decreases |items|
  {
    if items != [] {
      var r := KeepItems(items, before);
      var rest := KeepItems(items[1..], before + 1);
      KeepItemsSound(items[1..], before + 1);
      forall i | 0 <= i < |rest| ensures FromKeptItem(items, before, rest[i]) {
        FromKeptItemShift(items, before, rest[i]);
      }
      if Kept(items[0]) {
        assert r == [ItemSession(items[0], before + 1)] + rest;
        assert forall i :: 1 <= i < |r| ==> r[i] == rest[i - 1];
      } else {
        assert r == rest;
      }
    }
  }

  /** A session of the tail of `items` is one of `items` itself. */
  lemma FromKeptItemShift(items: seq<Item>, before: nat, s: ParsedSession)
    requires |items| > 0 && FromKeptItem(items[1..], before + 1, s)
    ensures FromKeptItem(items, before, s)
  {
    assert items[1..][s.order - before - 2] == items[s.order - before - 1];
  }

  /** No kept item is lost: item `k` (0-based) appears with order `before + k + 1`. */
  lemma {:induction false} KeepItemsComplete(items: seq<Item>, before: nat, k: nat)
    requires k < |items| && Kept(items[k])
    ensures exists i :: 0 <= i < |KeepItems(items, before)| && KeepItems(items, before)[i].order == before + k + 1
    decreases |items|
  {
    var r := KeepItems(items, before);
    if k == 0 {
      assert r[0].order == before + 1;
    } else {
      assert items[1..][k - 1] == items[k];
      KeepItemsComplete(items[1..], before + 1, k - 1);
      var rest := KeepItems(items[1..], before + 1);
      var i :| 0 <= i < |rest| && rest[i].order == before + k + 1;
      if Kept(items[0]) {
        assert r[i + 1] == rest[i];
      } else {
        assert r[i] == rest[i];
      }
    }
  }

  /** When no item is dropped the orders are exactly 1..N in source order. */
  lemma {:induction false} KeepItemsAllKept(items: seq<Item>, before: nat)
    requires forall k :: 0 <= k < |items| ==> Kept(items[k])
    ensures |KeepItems(items, before)| == |items|
    ensures forall i :: 0 <= i < |items| ==> KeepItems(items, before)[i].order == before + i + 1
    decreases |items|
  {
    if items != [] {
      KeepItemsAllKept(items[1..], before + 1);
    }
  }

  /** Some session survives the filter exactly when some item is kept. */
  lemma {:induction false} KeepItemsNonEmpty(items: seq<Item>, before: nat)
    ensures KeepItems(items, before) != [] <==> exists k :: 0 <= k < |items| && Kept(items[k])
    decreases |items|
  {
    if items != [] {
      if Kept(items[0]) {
        assert KeepItems(items, before) != [];
      } else {
        KeepItemsNonEmpty(items[1..], before + 1);
        if k :| 0 <= k < |items| && Kept(items[k]) {
          assert items[1..][k - 1] == items[k];
        }
        if k :| 0 <= k < |items[1..]| && Kept(items[1..][k]) {
          assert items[k + 1] == items[1..][k];
        }
      }
    }
  }

  lemma KeepItemsWellFormed(items: seq<Item>)
    ensures WellFormed(KeepItems(items, 0))
  {
    var r := KeepItems(items, 0);
    KeepItemsSound(items, 0);
    forall i | 0 <= i < |r|
      ensures r[i].order >= 1 && IsParagraph(r[i].question) && IsParagraph(r[i].answer)
    {
      var it := items[r[i].order - 1];
      assert Kept(it);
      TrimFacts(it.question, IsSpace);
      TrimFacts(it.answer, IsSpace);
    }
  }

  /** `_parse_json_format` after decoding: `decode` stands for `json.loads`. */
  function ParseJsonFormat(content: string, decode: string -> Json): (r: Option<ParseResult>)
    ensures r.Some? ==> LooksLikeJson(content)
    ensures r.Some? <==>
      && LooksLikeJson(content)
      && (|| decode(content).JsonArray?
          || (decode(content).JsonObject? &&
              exists k :: 0 <= k < |decode(content).sessions| && Kept(decode(content).sessions[k])))
    ensures r.Some? ==> WellFormed(r.value.sessions)
    ensures r.Some? && decode(content).JsonArray? ==>
      && r.value.sessions == KeepItems(decode(content).items, 0)
      && r.value.title == "" && r.value.platform == UnknownPlatform
    ensures r.Some? && decode(content).JsonObject? ==>
      && r.value.sessions == KeepItems(decode(content).sessions, 0)
      && r.value.title == decode(content).title
      && r.value.platform == (if decode(content).platform.Some? then decode(content).platform.value else UnknownPlatform)
  {
    if !LooksLikeJson(content) then None
    else
      match decode(content)
      case JsonArray(items) =>
        KeepItemsWellFormed(items);
        Some(ParseResult(KeepItems(items, 0), "", UnknownPlatform))
      case JsonObject(title, platform, items) =>
        KeepItemsWellFormed(items);
        KeepItemsNonEmpty(items, 0);
        var sessions := KeepItems(items, 0);
        if sessions != [] then
          Some(ParseResult(sessions, title, if platform.Some? then platform.value else UnknownPlatform))
        else None
      case _ => None
  }

  // ---------------------------------------------------------------------
  // Line endings
  // ---------------------------------------------------------------------

  /** `s.replace('\r\n', '\n')`: left to right, non-overlapping. */
  function ReplaceCrLf(s: string): (r: string)
    ensures |r| <= |s|
    ensures '\r' !in s ==> r == s
    decreases |s|
  {
    if s == [] then []
    else if |s| >= 2 && s[0] == '\r' && s[1] == '\n' then "\n" + ReplaceCrLf(s[2..])
    else
      assert '\r' !in s ==> '\r' !in s[1..];
      assert [s[0]] + s[1..] == s;
      [s[0]] + ReplaceCrLf(s[1..])
  }

  /** `s.replace('\r', '\n')` */
  function CrToLf(s: string): (r: string)
    ensures |r| == |s|
  {
    seq(|s|, k requires 0 <= k < |s| => if s[k] == '\r' then '\n' else s[k])
  }

  /** The normalisation applied before the text stages. */
  function NormalizeLineEndings(s: string): (r: string)
    ensures forall k :: 0 <= k < |r| ==> r[k] != '\r'
  {
    CrToLf(ReplaceCrLf(s))
  }

  /** Reference reading of the normalisation, one character at a time: a
      `\r` directly followed by `\n` disappears (the pair becomes one `\n`),
      any other `\r` becomes `\n`, everything else is kept. */
  function LineEndingsSpec(s: string): string
    decreases |s|
  {
    if s == [] then []
    else if s[0] == '\r' && |s| > 1 && s[1] == '\n' then LineEndingsSpec(s[1..])
    else if s[0] == '\r' then "\n" + LineEndingsSpec(s[1..])
    else [s[0]] + LineEndingsSpec(s[1..])
  }

  lemma CrToLfAppend(a: string, b: string)
    ensures CrToLf(a + b) == CrToLf(a) + CrToLf(b)
  {
    assert forall k :: 0 <= k < |a + b| ==> CrToLf(a + b)[k] == (CrToLf(a) + CrToLf(b))[k];
  }

  lemma {:induction false} NormalizeMatchesSpec(s: string)
    ensures NormalizeLineEndings(s) == LineEndingsSpec(s)
    decreases |s|
  {
    if s == [] {
    } else if |s| >= 2 && s[0] == '\r' && s[1] == '\n' {
      var rest := ReplaceCrLf(s[2..]);
      assert ReplaceCrLf(s) == "\n" + rest;
      NormalizeMatchesSpec(s[2..]);
      CrToLfAppend("\n", rest);
      assert s[1..][1..] == s[2..];
      assert LineEndingsSpec(s[1..]) == "\n" + LineEndingsSpec(s[2..]);
    } else {
      var rest := ReplaceCrLf(s[1..]);
      assert ReplaceCrLf(s) == [s[0]] + rest;
      NormalizeMatchesSpec(s[1..]);
      CrToLfAppend([s[0]], rest);
      assert CrToLf([s[0]]) == [if s[0] == '\r' then '\n' else s[0]];
    }
  }

  /** Text without `\r` is left alone. */
  lemma {:induction false} NormalizeNoCr(s: string)
    requires forall k :: 0 <= k < |s| ==> s[k] != '\r'
    ensures NormalizeLineEndings(s) == s
    decreases |s|
  {
    if s != [] {
      NormalizeNoCr(s[1..]);
      CrToLfAppend([s[0]], ReplaceCrLf(s[1..]));
    }
  }

  /** Normalising twice is normalising once. */
  lemma NormalizeIdempotent(s: string)
    ensures NormalizeLineEndings(NormalizeLineEndings(s)) == NormalizeLineEndings(s)
  {
    NormalizeNoCr(NormalizeLineEndings(s));
  }

  // ---------------------------------------------------------------------
  // AI stage (oracle)
  // ---------------------------------------------------------------------

  /** `_parse_with_ai`: `ai(content)` stands for the pairs decoded from the
      model's reply, or [] when there is no key or the call fails; they go
      through the same filter and numbering as the JSON stage. */
  function ParseWithAi(content: string, ai: string -> seq<Item>): (r: seq<ParsedSession>)
    ensures WellFormed(r)
  {
    KeepItemsWellFormed(ai(content));
    KeepItems(ai(content), 0)
  }

  // ---------------------------------------------------------------------
  // Heuristic fallback
  // ---------------------------------------------------------------------

  /** A question paragraph is strictly shorter than this. */
  const QuestionLimit := 500
  /** The first answer paragraph is strictly longer than this. */
  const AnswerStartLimit := 200
  /** Further answer paragraphs are strictly longer than this. */
  const AnswerMoreLimit := 300
  const ParagraphSeparator := "\n\n"

  /** Paragraph `i` is short and the next one is long. */
  predicate PairStartsAt(ps: seq<string>, i: nat)
    requires i + 1 < |ps|
  {
    |ps[i]| < QuestionLimit && |ps[i + 1]| > AnswerStartLimit
  }

  /** The inner loop: from `j`, the first paragraph that is not long enough
      to continue an answer (or the end). */
  function AnswerEnd(ps: seq<string>, j: nat): (e: nat)
    requires j <= |ps|
    ensures j <= e <= |ps|
    decreases |ps| - j
  {
    if j < |ps| && |ps[j]| > AnswerMoreLimit then AnswerEnd(ps, j + 1) else j
  }

  /** The inner loop stops at the first paragraph of at most 300
      characters, and at no earlier one. */
  lemma {:induction false} AnswerEndFacts(ps: seq<string>, j: nat)
    requires j <= |ps|
    ensures forall m :: j <= m < AnswerEnd(ps, j) ==> |ps[m]| > AnswerMoreLimit
    ensures AnswerEnd(ps, j) == |ps| || |ps[AnswerEnd(ps, j)]| <= AnswerMoreLimit
    decreases |ps| - j
  {
    if j < |ps| && |ps[j]| > AnswerMoreLimit {
      AnswerEndFacts(ps, j + 1);
    }
  }

  /** The paragraphs one session consumes: the question `ps[question]` and
      the answer `ps[question + 1 .. end]`. */
  datatype Span = Span(question: nat, end: nat)

  predicate ValidSpan(ps: seq<string>, sp: Span) {
    && sp.question + 1 < |ps|
    && PairStartsAt(ps, sp.question)
    && sp.end == AnswerEnd(ps, sp.question + 2)
  }

  /** Spans in document order: each one ends before any later one starts. */
  predicate InOrder(spans: seq<Span>) {
    forall a, b :: 0 <= a < b < |spans| ==> spans[a].end <= spans[b].question
  }

  /** The outer loop from paragraph `i` on. */
  function SpansFrom(ps: seq<string>, i: nat): (spans: seq<Span>)
    requires i <= |ps|
    ensures 2 * |spans| <= |ps| - i
    decreases |ps| - i
  {
    if i + 1 >= |ps| then []
    else if PairStartsAt(ps, i) then
      var e := AnswerEnd(ps, i + 2);
      [Span(i, e)] + SpansFrom(ps, e)
    else SpansFrom(ps, i + 1)
  }

  /** Every span of the scan from `i` is a valid pair at or after `i`. */
  lemma {:induction false} SpansFromValid(ps: seq<string>, i: nat)
    requires i <= |ps|
    ensures forall k :: 0 <= k < |SpansFrom(ps, i)| ==>
      i <= SpansFrom(ps, i)[k].question && ValidSpan(ps, SpansFrom(ps, i)[k])
    decreases |ps| - i
  {
    if i + 1 < |ps| {
      if PairStartsAt(ps, i) {
        var e := AnswerEnd(ps, i + 2);
        var rest := SpansFrom(ps, e);
        SpansFromValid(ps, e);
        assert SpansFrom(ps, i) == [Span(i, e)] + rest;
        assert forall b :: 1 <= b < |SpansFrom(ps, i)| ==> SpansFrom(ps, i)[b] == rest[b - 1];
      } else {
        SpansFromValid(ps, i + 1);
      }
    }
  }

  /** Every span of the scan from `i` starts at or after `i`. */
  lemma {:induction false} SpansFromAfter(ps: seq<string>, i: nat)
    requires i <= |ps|
    ensures forall k :: 0 <= k < |SpansFrom(ps, i)| ==> i <= SpansFrom(ps, i)[k].question
    decreases |ps| - i
  {
    if i + 1 < |ps| {
      if PairStartsAt(ps, i) {
        var e := AnswerEnd(ps, i + 2);
        SpansFromAfter(ps, e);
        SpansFromStep(ps, i);
      } else {
        SpansFromAfter(ps, i + 1);
        SpansFromStep(ps, i);
      }
    }
  }

  /** A span that ends before every span of an ordered list can go in front of it. */
  lemma InOrderCons(sp: Span, rest: seq<Span>)
    requires InOrder(rest)
    requires forall k :: 0 <= k < |rest| ==> sp.end <= rest[k].question
    ensures InOrder([sp] + rest)
  {
    var spans := [sp] + rest;
    forall a, b | 0 <= a < b < |spans|
      ensures spans[a].end <= spans[b].question
    {
      assert spans[b] == rest[b - 1];
      if a > 0 {
        assert spans[a] == rest[a - 1];
      }
    }
  }

  /** The spans of the scan are disjoint and in document order. */
  lemma {:induction false} SpansFromInOrder(ps: seq<string>, i: nat)
    requires i <= |ps|
    ensures InOrder(SpansFrom(ps, i))
    decreases |ps| - i
  {
    if i + 1 < |ps| {
      SpansFromStep(ps, i);
      if PairStartsAt(ps, i) {
        var e := AnswerEnd(ps, i + 2);
        SpansFromInOrder(ps, e);
        SpansFromAfter(ps, e);
        InOrderCons(Span(i, e), SpansFrom(ps, e));
      } else {
        SpansFromInOrder(ps, i + 1);
      }
    }
  }

  function SpanSession(ps: seq<string>, sp: Span, order: nat): ParsedSession
    requires ValidSpan(ps, sp)
  {
    ParsedSession(order, ps[sp.question], Join(ps[sp.question + 1..sp.end], ParagraphSeparator))
  }

  /** The sessions the scan from paragraph `i` produces, numbered from
      `order`: the outer loop of `_parse_fallback` as a recursion. */
  function FallbackFrom(ps: seq<string>, i: nat, order: nat): (r: seq<ParsedSession>)
    requires i <= |ps|
    ensures 2 * |r| <= |ps| - i
    decreases |ps| - i
  {
    if i + 1 >= |ps| then []
    else if PairStartsAt(ps, i) then
      var e := AnswerEnd(ps, i + 2);
      [ParsedSession(order, ps[i], Join(ps[i + 1..e], ParagraphSeparator))] + FallbackFrom(ps, e, order + 1)
    else FallbackFrom(ps, i + 1, order)
  }

  /** One step of the outer loop of `FallbackFrom`. */
  lemma FallbackFromStep(ps: seq<string>, i: nat, order: nat)
    requires i + 1 < |ps|
    ensures FallbackFrom(ps, i, order) ==
      if PairStartsAt(ps, i) then
        [ParsedSession(order, ps[i], Join(ps[i + 1..AnswerEnd(ps, i + 2)], ParagraphSeparator))]
          + FallbackFrom(ps, AnswerEnd(ps, i + 2), order + 1)
      else FallbackFrom(ps, i + 1, order)
  {
  }

  /** The outer loop's bookkeeping when it emits a session at `i`: the
      sessions so far followed by the scan from `i` are the sessions so
      far with the new one, followed by the scan from where it ended. */
  lemma FallbackFromEmit(ps: seq<string>, i: nat, order: nat, done: seq<ParsedSession>,
                         session: ParsedSession, j: nat)
    requires i + 1 < |ps| && PairStartsAt(ps, i)
    requires j == AnswerEnd(ps, i + 2)
    requires session == ParsedSession(order, ps[i], Join(ps[i + 1..j], ParagraphSeparator))
    ensures done + FallbackFrom(ps, i, order) == (done + [session]) + FallbackFrom(ps, j, order + 1)
  {
    FallbackFromStep(ps, i, order);
    assert done + ([session] + FallbackFrom(ps, j, order + 1)) == (done + [session]) + FallbackFrom(ps, j, order + 1);
  }

  /** Session `k` of the scan is built from span `k` and numbered `order + k`. */
  predicate SessionsMatchSpans(ps: seq<string>, r: seq<ParsedSession>, spans: seq<Span>, order: nat) {
    && |r| == |spans|
    && forall k :: 0 <= k < |spans| ==>
         && ValidSpan(ps, spans[k])
         && r[k] == SpanSession(ps, spans[k], order + k)
  }

  /** A session built from a valid span can go in front of matching lists. */
  lemma SessionsMatchCons(ps: seq<string>, r: seq<ParsedSession>, spans: seq<Span>, order: nat, sp: Span)
    requires ValidSpan(ps, sp)
    requires SessionsMatchSpans(ps, r, spans, order + 1)
    ensures SessionsMatchSpans(ps, [SpanSession(ps, sp, order)] + r, [sp] + spans, order)
  {
    var r2 := [SpanSession(ps, sp, order)] + r;
    var spans2 := [sp] + spans;
    forall k | 1 <= k < |spans2|
      ensures ValidSpan(ps, spans2[k]) && r2[k] == SpanSession(ps, spans2[k], order + k)
    {
      assert r2[k] == r[k - 1];
      assert spans2[k] == spans[k - 1];
    }
  }

  /** The scan emits one session per span, built from that span and
      numbered consecutively from `order`. */
  lemma {:induction false} FallbackFromSpans(ps: seq<string>, i: nat, order: nat)
    requires i <= |ps|
    ensures SessionsMatchSpans(ps, FallbackFrom(ps, i, order), SpansFrom(ps, i), order)
    decreases |ps| - i
  {
    if i + 1 < |ps| {
      SpansFromStep(ps, i);
      FallbackFromStep(ps, i, order);
      if PairStartsAt(ps, i) {
        var e := AnswerEnd(ps, i + 2);
        FallbackFromSpans(ps, e, order + 1);
        SessionsMatchCons(ps, FallbackFrom(ps, e, order + 1), SpansFrom(ps, e), order, Span(i, e));
      } else {
        FallbackFromSpans(ps, i + 1, order);
      }
    }
  }

  /** The sessions the fallback pairs out of a paragraph list. */
  function FallbackSessions(ps: seq<string>): (r: seq<ParsedSession>)
    ensures |r| == |SpansFrom(ps, 0)|
    ensures forall k :: 0 <= k < |r| ==> r[k].order == k + 1
    ensures 2 * |r| <= |ps|
  {
    FallbackFromSpans(ps, 0, 1);
    FallbackFrom(ps, 0, 1)
  }

  /** Position `g` lies inside one of the spans. */
  predicate Covered(spans: seq<Span>, g: nat) {
    exists k :: 0 <= k < |spans| && spans[k].question <= g < spans[k].end
  }

  /** The pairing stated without the scan: valid
      spans, disjoint and in document order, such that every position where
      a pair could start lies inside one of them. */
  predicate GreedyPairing(ps: seq<string>, spans: seq<Span>) {
    && (forall k :: 0 <= k < |spans| ==> ValidSpan(ps, spans[k]))
    && InOrder(spans)
    && (forall g: nat :: g + 1 < |ps| && PairStartsAt(ps, g) ==> Covered(spans, g))
  }

  lemma {:induction false} SpansFromCovers(ps: seq<string>, i: nat, g: nat)
    requires i <= g && g + 1 < |ps| && PairStartsAt(ps, g)
    ensures Covered(SpansFrom(ps, i), g)
    decreases |ps| - i
  {
    var spans := SpansFrom(ps, i);
    if PairStartsAt(ps, i) {
      var e := AnswerEnd(ps, i + 2);
      assert spans == [Span(i, e)] + SpansFrom(ps, e);
      if g < e {
        assert spans[0].question <= g < spans[0].end;
      } else {
        SpansFromCovers(ps, e, g);
        var rest := SpansFrom(ps, e);
        var k :| 0 <= k < |rest| && rest[k].question <= g < rest[k].end;
        assert spans[k + 1] == rest[k];
      }
    } else {
      assert spans == SpansFrom(ps, i + 1);
      SpansFromCovers(ps, i + 1, g);
    }
  }

  /** The hypotheses under which the spans of `SpansFrom(ps, i)` are
      determined: valid spans at or after `i`, in order, covering every
      possible pair start at or after `i`. */
  predicate GreedyFrom(ps: seq<string>, i: nat, spans: seq<Span>) {
    && (forall k :: 0 <= k < |spans| ==> ValidSpan(ps, spans[k]) && i <= spans[k].question)
    && InOrder(spans)
    && (forall g: nat :: i <= g && g + 1 < |ps| && PairStartsAt(ps, g) ==> Covered(spans, g))
  }

  /** When a pair starts at `i`, the first span is that pair. */
  lemma GreedyFromHead(ps: seq<string>, i: nat, spans: seq<Span>)
    requires i + 1 < |ps| && PairStartsAt(ps, i) && GreedyFrom(ps, i, spans)
    ensures |spans| > 0 && spans[0] == Span(i, AnswerEnd(ps, i + 2))
  {
    assert Covered(spans, i);
    var k :| 0 <= k < |spans| && spans[k].question <= i < spans[k].end;
    assert ValidSpan(ps, spans[0]);
    assert spans[0].question <= spans[k].question;
  }

  /** After the first span, the remaining spans are valid and start at or
      after the first span's end. */
  lemma GreedyFromTailSpans(ps: seq<string>, i: nat, spans: seq<Span>)
    requires |spans| > 0 && GreedyFrom(ps, i, spans)
    ensures forall m :: 1 <= m < |spans| ==> ValidSpan(ps, spans[m]) && spans[0].end <= spans[m].question
  {
    forall m | 1 <= m < |spans|
      ensures ValidSpan(ps, spans[m]) && spans[0].end <= spans[m].question
    {
    }
  }

  /** Every possible pair start after the first span is covered by a later span. */
  lemma GreedyFromTailCovers(spans: seq<Span>, g: nat)
    requires |spans| > 0 && Covered(spans, g) && spans[0].end <= g
    ensures Covered(spans[1..], g)
  {
    var m :| 0 <= m < |spans| && spans[m].question <= g < spans[m].end;
    assert m != 0;
    assert spans[1..][m - 1] == spans[m];
  }

  /** After the first span, the remaining spans satisfy the hypotheses from
      the first span's end. */
  lemma GreedyFromTail(ps: seq<string>, i: nat, spans: seq<Span>)
    requires |spans| > 0 && GreedyFrom(ps, i, spans)
    ensures GreedyFrom(ps, spans[0].end, spans[1..])
  {
    var rest := spans[1..];
    GreedyFromTailSpans(ps, i, spans);
    assert forall m :: 0 <= m < |rest| ==> rest[m] == spans[m + 1];
    forall g: nat | spans[0].end <= g && g + 1 < |ps| && PairStartsAt(ps, g)
      ensures Covered(rest, g)
    {
      assert Covered(spans, g);
      GreedyFromTailCovers(spans, g);
    }
  }

  /** Where no pair starts at `i`, the hypotheses hold from `i + 1` on. */
  lemma GreedyFromSkip(ps: seq<string>, i: nat, spans: seq<Span>)
    requires i + 1 < |ps| && !PairStartsAt(ps, i) && GreedyFrom(ps, i, spans)
    ensures GreedyFrom(ps, i + 1, spans)
  {
    forall m | 0 <= m < |spans|
      ensures i + 1 <= spans[m].question
    {
      assert ValidSpan(ps, spans[m]);
    }
  }

  /** With fewer than two paragraphs left, no span fits. */
  lemma GreedyFromEnd(ps: seq<string>, i: nat, spans: seq<Span>)
    requires i + 1 >= |ps| && GreedyFrom(ps, i, spans)
    ensures spans == []
  {
    assert |spans| > 0 ==> ValidSpan(ps, spans[0]);
  }

  /** One step of the outer loop of `SpansFrom`. */
  lemma SpansFromStep(ps: seq<string>, i: nat)
    requires i + 1 < |ps|
    ensures SpansFrom(ps, i) ==
      if PairStartsAt(ps, i) then [Span(i, AnswerEnd(ps, i + 2))] + SpansFrom(ps, AnswerEnd(ps, i + 2))
      else SpansFrom(ps, i + 1)
  {
  }

  lemma {:induction false} GreedyPairingFrom(ps: seq<string>, i: nat, spans: seq<Span>)
    requires i <= |ps| && GreedyFrom(ps, i, spans)
    ensures spans == SpansFrom(ps, i)
    decreases |ps| - i
  {
    if i + 1 >= |ps| {
      GreedyFromEnd(ps, i, spans);
    } else {
      SpansFromStep(ps, i);
      if PairStartsAt(ps, i) {
        GreedyFromHead(ps, i, spans);
        GreedyFromTail(ps, i, spans);
        GreedyPairingFrom(ps, spans[0].end, spans[1..]);
        assert spans == [spans[0]] + spans[1..];
      } else {
        GreedyFromSkip(ps, i, spans);
        GreedyPairingFrom(ps, i + 1, spans);
      }
    }
  }

  /** The scan computes exactly the greedy pairing: its spans satisfy
      `GreedyPairing`, and no other spans do. */
  lemma FallbackPairingCharacterized(ps: seq<string>, spans: seq<Span>)
    ensures GreedyPairing(ps, spans) <==> spans == SpansFrom(ps, 0)
  {
    if spans == SpansFrom(ps, 0) {
      SpansFromValid(ps, 0);
      SpansFromInOrder(ps, 0);
      forall g: nat | g + 1 < |ps| && PairStartsAt(ps, g)
        ensures Covered(spans, g)
      {
        SpansFromCovers(ps, 0, g);
      }
    }
    if GreedyPairing(ps, spans) {
      GreedyPairingFrom(ps, 0, spans);
    }
  }

  /** The shape of every fallback session: the question is one short
      paragraph; the answer is the next, long paragraph followed by every
      directly following paragraph longer than 300 characters, joined by a
      blank line; the next paragraph after the answer is not that long. */
  lemma FallbackSessionShape(ps: seq<string>, k: nat)
    requires k < |SpansFrom(ps, 0)|
    ensures var sp := SpansFrom(ps, 0)[k];
      var s := FallbackSessions(ps)[k];
      && sp.question + 2 <= sp.end <= |ps|
      && s.order == k + 1
      && s.question == ps[sp.question] && |s.question| < QuestionLimit
      && s.answer == Join(ps[sp.question + 1..sp.end], ParagraphSeparator)
      && |ps[sp.question + 1]| > AnswerStartLimit
      && (forall m :: sp.question + 2 <= m < sp.end ==> |ps[m]| > AnswerMoreLimit)
      && (sp.end == |ps| || |ps[sp.end]| <= AnswerMoreLimit)
  {
    FallbackFromSpans(ps, 0, 1);
    AnswerEndFacts(ps, SpansFrom(ps, 0)[k].question + 2);
  }

  /** Paragraphs consumed by different sessions are disjoint and in
      document order. */
  lemma FallbackSessionsDisjoint(ps: seq<string>, a: nat, b: nat)
    requires a < b < |FallbackSessions(ps)|
    ensures SpansFrom(ps, 0)[a].end <= SpansFrom(ps, 0)[b].question
  {
    SpansFromInOrder(ps, 0);
  }

  /** Fed stripped non-empty paragraphs, the fallback yields well-formed
      sessions. */
  lemma FallbackWellFormed(ps: seq<string>)
    requires forall k :: 0 <= k < |ps| ==> IsParagraph(ps[k])
    ensures WellFormed(FallbackSessions(ps))
  {
    var r := FallbackSessions(ps);
    var spans := SpansFrom(ps, 0);
    FallbackFromSpans(ps, 0, 1);
    forall i | 0 <= i < |r|
      ensures r[i].order >= 1 && IsParagraph(r[i].question) && IsParagraph(r[i].answer)
    {
      assert r[i] == SpanSession(ps, spans[i], i + 1);
      SpanSessionParagraphs(ps, spans[i], i + 1);
    }
  }

  /** A session built from stripped non-empty paragraphs has a stripped
      non-empty question and answer. */
  lemma SpanSessionParagraphs(ps: seq<string>, sp: Span, order: nat)
    requires forall k :: 0 <= k < |ps| ==> IsParagraph(ps[k])
    requires ValidSpan(ps, sp)
    ensures IsParagraph(SpanSession(ps, sp, order).question) && IsParagraph(SpanSession(ps, sp, order).answer)
  {
    var parts := ps[sp.question + 1..sp.end];
    assert parts[0] == ps[sp.question + 1];
    assert parts[|parts| - 1] == ps[sp.end - 1];
    JoinStripped(parts, ParagraphSeparator);
  }

  /** Unlike plain sequential pairing, a text made only of paragraphs of at
      most 200 characters yields no fallback session at all. */
  lemma FallbackNeedsLongAnswer(ps: seq<string>)
    requires forall k :: 0 <= k < |ps| ==> |ps[k]| <= AnswerStartLimit
    ensures FallbackSessions(ps) == []
  {
    var spans := SpansFrom(ps, 0);
    SpansFromValid(ps, 0);
    assert spans != [] ==> ValidSpan(ps, spans[0]);
  }

  /** The inner loop of `_parse_fallback`: the answer paragraphs of the
      pair that starts at `i`, and the index after them. */
  method CollectAnswer(ps: seq<string>, i: nat) returns (parts: seq<string>, j: nat)
    requires i + 1 < |ps|
    ensures j == AnswerEnd(ps, i + 2)
    ensures parts == ps[i + 1..j]
  {
    parts := [ps[i + 1]];
    j := i + 2;
    while j < |ps| && |ps[j]| > AnswerMoreLimit
      invariant i + 2 <= j <= |ps|
      invariant parts == ps[i + 1..j]
      invariant AnswerEnd(ps, i + 2) == AnswerEnd(ps, j)
      decreases |ps| - j
    {
      parts := parts + [ps[j]];
      j := j + 1;
    }
  }

  /** `_parse_fallback` as written: the loop over the paragraph list. */
  method PairParagraphs(ps: seq<string>) returns (sessions: seq<ParsedSession>)
    ensures sessions == FallbackSessions(ps)
    ensures forall k :: 0 <= k < |sessions| ==> sessions[k].order == k + 1
  {
    sessions := [];
    var order := 1;
    var i := 0;
    while i + 1 < |ps|
      invariant i <= |ps|
      invariant order == |sessions| + 1
      invariant FallbackFrom(ps, 0, 1) == sessions + FallbackFrom(ps, i, order)
      decreases |ps| - i
    {
      var current := ps[i];
      var next := ps[i + 1];
      if |current| < QuestionLimit && |next| > AnswerStartLimit {
        var parts, j := CollectAnswer(ps, i);
        var session := ParsedSession(order, current, Join(parts, ParagraphSeparator));
        FallbackFromEmit(ps, i, order, sessions, session, j);
        sessions := sessions + [session];
        order := order + 1;
        i := j;
      } else {
        assert FallbackFrom(ps, i, order) == FallbackFrom(ps, i + 1, order);
        i := i + 1;
      }
    }
    assert FallbackFrom(ps, i, order) == [];
    assert sessions + [] == sessions;
  }

  /** `_parse_fallback(content)` */
  method ParseFallback(content: string) returns (sessions: seq<ParsedSession>)
    ensures sessions == FallbackSessions(SplitParagraphs(content))
    ensures WellFormed(sessions)
  {
    var ps := SplitParagraphs(content);
    FallbackWellFormed(ps);
    sessions := PairParagraphs(ps);
  }

  // ---------------------------------------------------------------------
  // The cascade
  // ---------------------------------------------------------------------

  /** What the text stages produce once the JSON stage has yielded nothing:
      the AI stage's sessions if any, else the fallback's. */
  function TextStages(content: string, ai: string -> seq<Item>): (r: seq<ParsedSession>)
    ensures WellFormed(r)
    ensures ParseWithAi(NormalizeLineEndings(content), ai) != [] ==> r == ParseWithAi(NormalizeLineEndings(content), ai)
    ensures ParseWithAi(NormalizeLineEndings(content), ai) == [] ==> r == FallbackSessions(SplitParagraphs(NormalizeLineEndings(content)))
  {
    var normalized := NormalizeLineEndings(content);
    var fromAi := ParseWithAi(normalized, ai);
    FallbackWellFormed(SplitParagraphs(normalized));
    if fromAi != [] then fromAi else FallbackSessions(SplitParagraphs(normalized))
  }

  /** `parse_chat(content)` */
  function ParseChat(content: string, decode: string -> Json, ai: string -> seq<Item>): (r: seq<ParsedSession>)
    ensures WellFormed(r)
  {
    var stripped := Strip(content);
    match ParseJsonFormat(stripped, decode)
    case Some(result) => result.sessions
    case None => TextStages(stripped, ai)
  }

  /** `parse_chat_with_metadata(content)` */
  function ParseChatWithMetadata(content: string, decode: string -> Json, ai: string -> seq<Item>): (r: ParseResult)
    ensures WellFormed(r.sessions)
  {
    var stripped := Strip(content);
    match ParseJsonFormat(stripped, decode)
    case Some(result) => result
    case None => ParseResult(TextStages(stripped, ai), "", UnknownPlatform)
  }

  /** Both entry points agree on the sessions; metadata other than the
      defaults only ever comes from a JSON object. */
  lemma MetadataAgreesWithParseChat(content: string, decode: string -> Json, ai: string -> seq<Item>)
    ensures ParseChatWithMetadata(content, decode, ai).sessions == ParseChat(content, decode, ai)
    ensures !decode(Strip(content)).JsonObject? ==>
      && ParseChatWithMetadata(content, decode, ai).title == ""
      && ParseChatWithMetadata(content, decode, ai).platform == UnknownPlatform
  {
  }

  /** A decoded JSON array ends the cascade, even when nothing survives the
      filter: neither the AI stage nor the fallback is consulted. */
  lemma JsonArrayEndsCascade(content: string, decode: string -> Json, ai: string -> seq<Item>, ai2: string -> seq<Item>)
    requires LooksLikeJson(Strip(content)) && decode(Strip(content)).JsonArray?
    ensures ParseChat(content, decode, ai) == KeepItems(decode(Strip(content)).items, 0)
    ensures ParseChat(content, decode, ai) == ParseChat(content, decode, ai2)
  {
  }

  /** Text that does not start with `{` or `[` once stripped never reaches
      the decoder: any two decoders give the same result. */
  lemma NonJsonIgnoresDecoder(content: string, decode: string -> Json, decode2: string -> Json, ai: string -> seq<Item>)
    requires !LooksLikeJson(Strip(content))
    ensures ParseChatWithMetadata(content, decode, ai) == ParseChatWithMetadata(content, decode2, ai)
    ensures ParseChatWithMetadata(content, decode, ai).title == ""
    ensures ParseChatWithMetadata(content, decode, ai).platform == UnknownPlatform
  {
  }

  /** A JSON object without a usable session falls through to the text
      stages, exactly as a decode failure does. */
  lemma EmptyJsonObjectFallsThrough(content: string, decode: string -> Json, ai: string -> seq<Item>)
    requires || decode(Strip(content)).Malformed?
             || (&& decode(Strip(content)).JsonObject?
                 && forall k :: 0 <= k < |decode(Strip(content)).sessions| ==> !Kept(decode(Strip(content)).sessions[k]))
    ensures ParseChat(content, decode, ai) == TextStages(Strip(content), ai)
  {
  }

  // ---------------------------------------------------------------------
  // Validation gate
  // ---------------------------------------------------------------------

  const NoSessionsMessage := "No Q&A sessions found. Please check the format or try using the browser scraper."
  const AllQuestionsEmptyMessage := "All questions are empty. Please check the format."

  /** `sum(1 for s in sessions if not s.question)` */
  function CountEmptyQuestions(ss: seq<ParsedSession>): (n: nat)
    ensures n <= |ss|
    ensures n == |ss| <==> forall i :: 0 <= i < |ss| ==> ss[i].question == ""
    decreases |ss|
  {
    if ss == [] then 0
    else
      var rest := CountEmptyQuestions(ss[1..]);
      assert forall i :: 1 <= i < |ss| ==> ss[i] == ss[1..][i - 1];
      (if ss[0].question == "" then 1 else 0) + rest
  }

  /** `validate_parsed_sessions`: valid iff there is a session and some
      question is non-empty; the message names the first failing check. */
  function ValidateParsedSessions(ss: seq<ParsedSession>): (r: (bool, string))
    ensures r.0 <==> exists i :: 0 <= i < |ss| && ss[i].question != ""
    ensures r.0 ==> r.1 == ""
    ensures |ss| == 0 ==> r.1 == NoSessionsMessage
    ensures |ss| > 0 && !r.0 ==> r.1 == AllQuestionsEmptyMessage
  {
    if |ss| == 0 then (false, NoSessionsMessage)
    else if CountEmptyQuestions(ss) == |ss| then (false, AllQuestionsEmptyMessage)
    else (true, "")
  }

  /** On the cascade's own output only the empty-result check can fail. */
  lemma ParseChatValidIffNonEmpty(content: string, decode: string -> Json, ai: string -> seq<Item>)
    ensures var ss := ParseChat(content, decode, ai);
      && (ValidateParsedSessions(ss).0 <==> ss != [])
      && (ss == [] ==> ValidateParsedSessions(ss).1 == NoSessionsMessage)
  {
    var ss := ParseChat(content, decode, ai);
    if ss != [] {
      assert ss[0].question != "";
    }
  }
}
