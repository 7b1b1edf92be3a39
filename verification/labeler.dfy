/** The topic labeller of `main/services/labeler.py`.

    The model call itself is an oracle `provider`: given the truncated
    question and answer it returns the reply text or fails. What is
    modelled is everything around it: the credential check, the
    truncation of the inputs, the clean-up and cap of the reply, the
    fixed fallback on failure and the in-order batch. */
module Labeler {
  import opened Base
  import opened Text

  const MaxQuestionChars := 500
  const MaxAnswerChars := 1000
  const MaxLabelChars := 100
  /** The label returned when the provider call fails. */
  const LabelingFailed := "Session (labeling failed)"
  const MissingKeyMessage := "ANTHROPIC_API_KEY environment variable is not set. Please set it in your .env file or environment."

  /** The `ValueError` that `get_client` raises. */
  datatype LabelError = MissingApiKey(message: string)

  /** A configured client; only its key matters here. */
  datatype Client = Client(apiKey: string)

  /** What the provider call produced: the first content block's text, or
      any exception raised by the call or by reading the reply. */
  datatype Reply = Reply(text: string) | ProviderFailure

  /** `get_client`: an absent or empty key raises. */
  function GetClient(apiKey: Option<string>): (r: Result<Client, LabelError>)
    ensures r.Success? <==> apiKey.Some? && apiKey.value != ""
    ensures r.Success? ==> r.value.apiKey == apiKey.value
    ensures r.Failure? ==> r.error == MissingApiKey(MissingKeyMessage)
  {
    if apiKey.None? || apiKey.value == "" then Failure(MissingApiKey(MissingKeyMessage))
    else Success(Client(apiKey.value))
  }

  /** The characters `label.strip('"\'')` removes. */
  predicate IsQuote(c: char) {
    c == '"' || c == '\''
  }

  /** The post-processing of the reply: strip whitespace, then strip
      quote characters from both ends, then keep at most 100 characters. */
  function CleanLabel(raw: string): (lbl: string)
    ensures |lbl| <= MaxLabelChars
    ensures lbl == [] || !IsQuote(lbl[0])
    ensures lbl == [] <==> AllDrop(Strip(raw), IsQuote)
    ensures |Trim(Strip(raw), IsQuote)| <= MaxLabelChars ==> lbl == Trim(Strip(raw), IsQuote)
    ensures |Trim(Strip(raw), IsQuote)| > MaxLabelChars ==> lbl == Trim(Strip(raw), IsQuote)[..MaxLabelChars]
  {
    var stripped := Strip(raw);
    var unquoted := Trim(stripped, IsQuote);
    TrimFacts(stripped, IsQuote);
    if |unquoted| > MaxLabelChars then unquoted[..MaxLabelChars] else unquoted
  }

  /** A label that is already clean comes back unchanged. */
  lemma CleanLabelKeepsCleanText(lbl: string)
    requires |lbl| <= MaxLabelChars
    requires IsStripped(lbl) && Trimmed(lbl, IsQuote)
    ensures CleanLabel(lbl) == lbl
  {
    TrimFacts(lbl, IsSpace);
    TrimFacts(lbl, IsQuote);
  }

  /** A reply made of whitespace, then quote characters, then whitespace
      gives the empty label: `strip()` leaves only the quotes and
      `strip('"\'')` removes them all. */
  lemma QuotesOnlyReplyGivesEmptyLabel(pre: string, quotes: string, post: string)
    requires AllDrop(pre, IsSpace) && AllDrop(quotes, IsQuote) && AllDrop(post, IsSpace)
    ensures CleanLabel(pre + quotes + post) == ""
  {
    TrimPadding(pre, quotes, post, IsSpace);
    assert Trimmed(quotes, IsSpace) by {
      if quotes != [] {
        assert IsQuote(quotes[0]) && IsQuote(quotes[|quotes| - 1]);
      }
    }
    TrimFacts(quotes, IsSpace);
  }

  /** Whitespace between quotes is not removed: the two strips run one
      after the other, so `" "` (a space in double quotes) becomes a
      label of one space rather than the empty label. */
  lemma QuotedSpaceSurvives()
    ensures CleanLabel("\" \"") == " "
  {
    assert Trimmed("\" \"", IsSpace);
    TrimFacts("\" \"", IsSpace);
    assert TrimLeft("\" \"", IsQuote) == " \"";
    assert TrimRight(" \"", IsQuote) == " ";
  }

  /** `generate_label`: the credential check runs before the guarded call,
      so a missing key raises instead of producing the fallback label. */
  function GenerateLabel(question: string, answer: string, apiKey: Option<string>,
                         provider: (string, string) -> Reply): (r: Result<string, LabelError>)
    ensures r.Success? <==> GetClient(apiKey).Success?
    ensures r.Failure? ==> r.error == MissingApiKey(MissingKeyMessage)
    ensures r.Success? ==> |r.value| <= MaxLabelChars
    ensures r.Success? && provider(Truncate(question, MaxQuestionChars), Truncate(answer, MaxAnswerChars)).ProviderFailure?
      ==> r.value == LabelingFailed
    ensures r.Success? && provider(Truncate(question, MaxQuestionChars), Truncate(answer, MaxAnswerChars)).Reply?
      ==> r.value == CleanLabel(provider(Truncate(question, MaxQuestionChars), Truncate(answer, MaxAnswerChars)).text)
  {
    match GetClient(apiKey)
    case Failure(e) => Failure(e)
    case Success(_) =>
      match provider(Truncate(question, MaxQuestionChars), Truncate(answer, MaxAnswerChars))
      case Reply(text) => Success(CleanLabel(text))
      case ProviderFailure => Success(LabelingFailed)
  }

  /** What reaches the provider is bounded: at most 503 and 1003 characters. */
  lemma PromptInputsBounded(question: string, answer: string)
    ensures |Truncate(question, MaxQuestionChars)| <= MaxQuestionChars + |Ellipsis|
    ensures |Truncate(answer, MaxAnswerChars)| <= MaxAnswerChars + |Ellipsis|
    ensures |question| <= MaxQuestionChars ==> Truncate(question, MaxQuestionChars) == question
    ensures |answer| <= MaxAnswerChars ==> Truncate(answer, MaxAnswerChars) == answer
  {
    TruncateBound(question, MaxQuestionChars);
    TruncateBound(answer, MaxAnswerChars);
  }

  /** Only the first 500 characters of a long question and the first 1000
      of a long answer reach the provider: two such pairs that agree there
      send identical arguments, and so get the same label from a provider
      that answers the same arguments the same way. */
  lemma LabelIgnoresTruncatedTail(q1: string, q2: string, a1: string, a2: string,
                                  apiKey: Option<string>, provider: (string, string) -> Reply)
    requires |q1| > MaxQuestionChars && |q2| > MaxQuestionChars
    requires q1[..MaxQuestionChars] == q2[..MaxQuestionChars]
    requires |a1| > MaxAnswerChars && |a2| > MaxAnswerChars
    requires a1[..MaxAnswerChars] == a2[..MaxAnswerChars]
    ensures Truncate(q1, MaxQuestionChars) == Truncate(q2, MaxQuestionChars)
    ensures Truncate(a1, MaxAnswerChars) == Truncate(a2, MaxAnswerChars)
    ensures GenerateLabel(q1, a1, apiKey, provider) == GenerateLabel(q2, a2, apiKey, provider)
  {
    assert Truncate(q1, MaxQuestionChars) == Truncate(q2, MaxQuestionChars);
    assert Truncate(a1, MaxAnswerChars) == Truncate(a2, MaxAnswerChars);
  }

  /** `generate_labels_batch`: one label per session, in order. The first
      call that raises (a missing key) propagates out of the batch; an
      empty batch makes no call and so never raises. */
  method GenerateLabelsBatch(sessions: seq<(string, string)>, apiKey: Option<string>,
                             provider: (string, string) -> Reply)
    returns (r: Result<seq<string>, LabelError>)
    ensures r.Success? <==> |sessions| == 0 || GetClient(apiKey).Success?
    ensures r.Failure? ==> r.error == MissingApiKey(MissingKeyMessage)
    ensures r.Success? ==> |r.value| == |sessions|
    ensures r.Success? ==> forall k :: 0 <= k < |sessions| ==>
      GenerateLabel(sessions[k].0, sessions[k].1, apiKey, provider) == Success(r.value[k])
  {
    var labels: seq<string> := [];
    var k := 0;
    while k < |sessions|
      invariant k <= |sessions|
      invariant |labels| == k
      invariant k > 0 ==> GetClient(apiKey).Success?
      invariant forall m :: 0 <= m < k ==>
        GenerateLabel(sessions[m].0, sessions[m].1, apiKey, provider) == Success(labels[m])
    {
      var lbl := GenerateLabel(sessions[k].0, sessions[k].1, apiKey, provider);
      if lbl.Failure? {
        return Failure(lbl.error);
      }
      labels := labels + [lbl.value];
      k := k + 1;
    }
    return Success(labels);
  }
}
