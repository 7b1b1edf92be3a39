/** The two views of `main/views.py` that change state: `upload`, which
    stores a validated chat as a new document, and `generate_index`,
    which parses a document, replaces its sessions, labels each one and
    reports progress as a stream of events.

    The sessions table is a map from document id to that document's
    sessions in creation order. The events are the payloads of the
    server-sent stream, before their JSON encoding. */
module Views {
  import opened Base
  import opened Text
  import opened Parser
  import opened Labeler
  import opened Models
  import opened Forms

  /** The sessions of every document, by document id, in creation order. */
  type Store = map<nat, seq<Session>>

  /** `document.sessions`: none for a document without an entry. */
  function SessionsOf(store: Store, id: nat): seq<Session> {
    if id in store then store[id] else []
  }

  /** The status changes a document goes through: indexing may be
      (re)started from any state, parsing ends in labelling or an error,
      labelling ends in completion or an error. */
  predicate Step(from: Status, to: Status) {
    || to == Parsing
    || (from == Parsing && (to == Labeling || to == Error))
    || (from == Labeling && (to == Completed || to == Error))
  }

  /** A sequence of saved statuses that follows `Step` from `start`. */
  predicate StatusPath(start: Status, path: seq<Status>) {
    && (|path| > 0 ==> Step(start, path[0]))
    && forall k :: 0 < k < |path| ==> Step(path[k - 1], path[k])
  }

  /** `upload`: a valid form creates a document with status "uploaded"
      holding the cleaned title and content; an invalid one creates nothing. */
  function Upload(id: nat, title: string, content: string): (r: Result<ChatDocument, UploadErrors>)
    ensures r.Success? <==>
      && |Strip(title)| <= TitleMaxLength && '\0' !in Strip(title)
      && |Strip(content)| >= ContentMinLength && '\0' !in Strip(content)
    ensures r.Success? ==> r.value.id == id && r.value.status == Uploaded && r.value.errorMessage == ""
    ensures r.Success? ==> r.value.title == Strip(title) && r.value.originalContent == Strip(content)
    ensures r.Success? ==> IsStripped(r.value.originalContent)
    ensures r.Failure? ==> r.error == ValidateUpload(title, content).error
  {
    match ValidateUpload(title, content)
    case Success(data) =>
      TrimFacts(content, IsSpace);
      Success(NewDocument(id, data.title, data.content))
    case Failure(e) => Failure(e)
  }

  /** One message of the progress stream. */
  datatype Event =
    | Progress(message: string, current: nat, total: nat)
    | ErrorEvent(message: string)
    | Complete(message: string)

  const ParsingMessage := "Parsing chat..."
  const DoneMessage := "Done!"

  function FoundMessage(n: nat): string {
    "Found " + NatToString(n) + " sessions. Creating..."
  }

  function LabelingMessage(i: nat, n: nat): string {
    "Labeling session " + NatToString(i) + "/" + NatToString(n) + "..."
  }

  /** The progress events of the labelling loop, one per session, counting from 1. */
  function LabelingEvents(n: nat): seq<Event> {
    seq(n, k requires 0 <= k < n => Progress(LabelingMessage(k + 1, n), k + 1, n))
  }

  /** The session row created for a parsed session, not yet labelled. */
  function Created(p: ParsedSession): Session {
    Session(p.order, p.question, p.answer, "")
  }

  /** The label the view stores for a session: the labeller's result, or
      "Session <order>" when the labeller raised (a missing API key). */
  function LabelFor(s: Session, apiKey: Option<string>, provider: (string, string) -> Reply): (lbl: string)
    ensures GetClient(apiKey).Failure? ==> lbl == SessionFallbackName(s.order)
    ensures GetClient(apiKey).Success? ==> Success(lbl) == GenerateLabel(s.question, s.answer, apiKey, provider)
    ensures GetClient(apiKey).Success? ==> |lbl| <= MaxLabelChars
    ensures lbl == "" ==>
      && GetClient(apiKey).Success?
      && provider(Truncate(s.question, MaxQuestionChars), Truncate(s.answer, MaxAnswerChars)).Reply?
      && AllDrop(Strip(provider(Truncate(s.question, MaxQuestionChars), Truncate(s.answer, MaxAnswerChars)).text), IsQuote)
  {
    match GenerateLabel(s.question, s.answer, apiKey, provider)
    case Success(l) => l
    case Failure(_) => SessionFallbackName(s.order)
  }

  /** With a key set, every label the view stores fits the 255-character
      `label` column: the labeller caps its result at 100 characters. */
  lemma KeyedLabelFitsColumn(s: Session, apiKey: Option<string>, provider: (string, string) -> Reply)
    requires GetClient(apiKey).Success?
    ensures |LabelFor(s, apiKey, provider)| <= LabelMaxLength
  {
  }

  /** A session after the labelling loop has visited it. */
  function Labelled(s: Session, apiKey: Option<string>, provider: (string, string) -> Reply): Session {
    s.(labelText := LabelFor(s, apiKey, provider))
  }

  /** What the sessions table holds for a document once indexing completed. */
  function IndexedSessions(ps: seq<ParsedSession>, apiKey: Option<string>,
                           provider: (string, string) -> Reply): (r: seq<Session>)
    ensures |r| == |ps|
  {
    seq(|ps|, k requires 0 <= k < |ps| => Labelled(Created(ps[k]), apiKey, provider))
  }

  /** The creation loop: after the document's old sessions are deleted,
      one unlabelled row per parsed session, in parse order. */
  method CreateRows(ss: seq<ParsedSession>) returns (rows: seq<Session>)
    ensures |rows| == |ss|
    ensures forall j :: 0 <= j < |ss| ==> rows[j] == Created(ss[j])
  {
    rows := [];
    var k := 0;
    while k < |ss|
      invariant k <= |ss| && |rows| == k
      invariant forall j :: 0 <= j < k ==> rows[j] == Created(ss[j])
    {
      rows := rows + [Created(ss[k])];
      k := k + 1;
    }
  }

  /** The labelling loop: announces each session, then stores the label
      `labelOf` gives it. */
  method LabelRows(created: seq<Session>, labelOf: Session -> string)
    returns (rows: seq<Session>, progress: seq<Event>)
    ensures |rows| == |created|
    ensures forall j :: 0 <= j < |created| ==> rows[j] == created[j].(labelText := labelOf(created[j]))
    ensures progress == LabelingEvents(|created|)
  {
    var n := |created|;
    rows := created;
    progress := [];
    var i := 0;
    while i < n
      invariant i <= n && |rows| == n && |progress| == i
      invariant forall j :: 0 <= j < i ==> rows[j] == created[j].(labelText := labelOf(created[j]))
      invariant forall j :: i <= j < n ==> rows[j] == created[j]
      invariant forall j :: 0 <= j < i ==> progress[j] == Progress(LabelingMessage(j + 1, n), j + 1, n)
    {
      progress := progress + [Progress(LabelingMessage(i + 1, n), i + 1, n)];
      rows := rows[i := rows[i].(labelText := labelOf(rows[i]))];
      i := i + 1;
    }
  }

  /** Labelling the freshly created rows with `LabelFor` gives the indexed sessions. */
  lemma LabelledRowsIndexed(ss: seq<ParsedSession>, created: seq<Session>, rows: seq<Session>,
                            apiKey: Option<string>, provider: (string, string) -> Reply)
    requires |created| == |ss| && |rows| == |ss|
    requires forall j :: 0 <= j < |ss| ==> created[j] == Created(ss[j])
    requires forall j :: 0 <= j < |ss| ==> rows[j] == Labelled(created[j], apiKey, provider)
    ensures rows == IndexedSessions(ss, apiKey, provider)
  {
    assert forall j :: 0 <= j < |ss| ==> rows[j] == IndexedSessions(ss, apiKey, provider)[j];
  }

  /** The labelling loop of `generate_index`, run with `LabelFor` over the
      rows created for the parsed sessions. */
  method LabelCreatedRows(ss: seq<ParsedSession>, created: seq<Session>,
                          apiKey: Option<string>, provider: (string, string) -> Reply)
    returns (rows: seq<Session>, progress: seq<Event>)
    requires |created| == |ss|
    requires forall j :: 0 <= j < |ss| ==> created[j] == Created(ss[j])
    ensures rows == IndexedSessions(ss, apiKey, provider)
    ensures progress == LabelingEvents(|ss|)
  {
    rows, progress := LabelRows(created, s => LabelFor(s, apiKey, provider));
    LabelledRowsIndexed(ss, created, rows, apiKey, provider);
  }

  /** `generate_index` for a document whose parse either returned sessions
      or raised with the given message. Every status the view saves is
      recorded in `saved`. A raise or a failed validation leaves the
      sessions table alone and ends in the error state with the message;
      otherwise the document's sessions are replaced by the labelled
      parsed sessions and the document ends completed. The error message
      of an earlier failed run is kept on success. */
  method GenerateIndex(doc: ChatDocument, store: Store, parsed: Result<seq<ParsedSession>, string>,
                       apiKey: Option<string>, provider: (string, string) -> Reply)
    returns (after: ChatDocument, newStore: Store, events: seq<Event>, saved: seq<Status>)
    ensures after.id == doc.id && after.title == doc.title && after.originalContent == doc.originalContent
    ensures StatusPath(doc.status, saved) && |saved| > 0 && saved[0] == Parsing && saved[|saved| - 1] == after.status
    ensures after.status == Error || after.status == Completed
    ensures after.status == Error ==> saved == [Parsing, Error]
    ensures after.status == Completed ==> saved == [Parsing, Labeling, Completed]
    ensures parsed.Failure? ==>
      && after.status == Error && after.errorMessage == parsed.error
      && newStore == store
      && events == [Progress(ParsingMessage, 0, 1), ErrorEvent(parsed.error)]
    ensures parsed.Success? && !ValidateParsedSessions(parsed.value).0 ==>
      && after.status == Error && after.errorMessage == ValidateParsedSessions(parsed.value).1
      && newStore == store
      && events == [Progress(ParsingMessage, 0, 1), ErrorEvent(ValidateParsedSessions(parsed.value).1)]
    ensures parsed.Success? && ValidateParsedSessions(parsed.value).0 ==>
      && after.status == Completed && after.errorMessage == doc.errorMessage
      && newStore == store[doc.id := IndexedSessions(parsed.value, apiKey, provider)]
      && events == [Progress(ParsingMessage, 0, 1), Progress(FoundMessage(|parsed.value|), 0, |parsed.value|)]
                   + LabelingEvents(|parsed.value|) + [Complete(DoneMessage)]
  {
    after := doc.(status := Parsing);
    saved := [Parsing];
    events := [Progress(ParsingMessage, 0, 1)];
    if parsed.Failure? {
      after := after.(status := Error, errorMessage := parsed.error);
      saved := saved + [Error];
      events := events + [ErrorEvent(parsed.error)];
      newStore := store;
      return;
    }
    var ss := parsed.value;
    var verdict := ValidateParsedSessions(ss);
    if !verdict.0 {
      after := after.(status := Error, errorMessage := verdict.1);
      saved := saved + [Error];
      events := events + [ErrorEvent(verdict.1)];
      newStore := store;
      return;
    }
    var n := |ss|;
    events := events + [Progress(FoundMessage(n), 0, n)];
    var created := CreateRows(ss);
    after := after.(status := Labeling);
    saved := saved + [Labeling];
    var rows, progress := LabelCreatedRows(ss, created, apiKey, provider);
    events := events + progress;
    after := after.(status := Completed);
    saved := saved + [Completed];
    events := events + [Complete(DoneMessage)];
    newStore := store[doc.id := rows];
  }

  /** `generate_index` with the parser of `main/services/parser.py`, which
      never raises in this model: the document completes exactly when the
      parse finds a session, and the sessions it then lists are the
      parsed ones, in order, each with its label. */
  method GenerateIndexWithParser(doc: ChatDocument, store: Store, decode: string -> Json, ai: string -> seq<Item>,
                                 apiKey: Option<string>, provider: (string, string) -> Reply)
    returns (after: ChatDocument, newStore: Store, events: seq<Event>)
    ensures var ss := ParseChat(doc.originalContent, decode, ai);
      && (after.status == Completed <==> ss != [])
      && (ss == [] ==> after.status == Error && after.errorMessage == NoSessionsMessage && newStore == store)
      && (ss != [] ==> newStore == store[doc.id := IndexedSessions(ss, apiKey, provider)])
      && (ss != [] ==> ListedInOrder(SessionsOf(newStore, doc.id)))
    ensures forall id :: id != doc.id ==> SessionsOf(newStore, id) == SessionsOf(store, id)
  {
    var ss := ParseChat(doc.originalContent, decode, ai);
    ParseChatValidIffNonEmpty(doc.originalContent, decode, ai);
    var saved;
    after, newStore, events, saved := GenerateIndex(doc, store, Success(ss), apiKey, provider);
    if ss != [] {
      IndexedSessionsListedInOrder(ss, apiKey, provider);
    }
  }

  /** The stored sessions keep the parsed orders, questions and answers,
      so sessions listed in creation order are listed by order. */
  lemma IndexedSessionsListedInOrder(ps: seq<ParsedSession>, apiKey: Option<string>,
                                     provider: (string, string) -> Reply)
    requires OrdersIncreasing(ps)
    ensures var r := IndexedSessions(ps, apiKey, provider);
      && ListedInOrder(r)
      && forall k :: 0 <= k < |ps| ==>
           r[k].order == ps[k].order && r[k].question == ps[k].question && r[k].answer == ps[k].answer
  {
  }

  /** Without an API key every session is named after its order, so every
      session counts as labelled. */
  lemma MissingKeyNamesEverySession(ps: seq<ParsedSession>, apiKey: Option<string>,
                                    provider: (string, string) -> Reply)
    requires apiKey.None? || apiKey.value == ""
    ensures var r := IndexedSessions(ps, apiKey, provider);
      && (forall k :: 0 <= k < |ps| ==> r[k].labelText == SessionFallbackName(ps[k].order))
      && LabeledCount(r) == SessionCount(r)
  {
    var r := IndexedSessions(ps, apiKey, provider);
    forall k | 0 <= k < |ps| ensures r[k].labelText != "" {
      assert r[k].labelText == SessionFallbackName(ps[k].order);
    }
  }

  /** With a key but a provider that always fails, every session gets the
      fixed "labeling failed" label. */
  lemma ProviderDownLabelsFailed(ps: seq<ParsedSession>, apiKey: Option<string>,
                                 provider: (string, string) -> Reply)
    requires apiKey.Some? && apiKey.value != ""
    requires forall q, a :: provider(q, a).ProviderFailure?
    ensures forall k :: 0 <= k < |ps| ==> IndexedSessions(ps, apiKey, provider)[k].labelText == LabelingFailed
  {
  }

  /** The labelling events count the sessions from 1 to their total, and
      the last one reports the total. */
  lemma LabelingProgressCountsUp(n: nat)
    ensures |LabelingEvents(n)| == n
    ensures forall k :: 0 <= k < n ==>
      LabelingEvents(n)[k].Progress? && LabelingEvents(n)[k].current == k + 1 && LabelingEvents(n)[k].total == n
    ensures n > 0 ==> LabelingEvents(n)[n - 1].current == LabelingEvents(n)[n - 1].total
  {
  }
}
