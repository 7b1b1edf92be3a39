/** The stored records of `main/models.py`: an uploaded chat document
    with its processing status, and the question/answer sessions
    extracted from it. The database itself is not modelled; a document's
    sessions are a sequence in creation order. */
module Models {
  import opened Base
  import opened Text

  /** The processing state of a document. */
  datatype Status = Uploaded | Parsing | Labeling | Completed | Error

  /** The stored value and the display name of every status, in the
      order of the model's choices list. */
  const StatusChoices: seq<(string, string)> := [
    ("uploaded", "Uploaded"),
    ("parsing", "Parsing"),
    ("labeling", "Labeling"),
    ("completed", "Completed"),
    ("error", "Error")
  ]

  /** The width of the status column. */
  const StatusMaxLength := 20

  /** The position of a status in `StatusChoices`. */
  function StatusIndex(s: Status): (k: nat)
    ensures k < |StatusChoices|
  {
    match s
    case Uploaded => 0
    case Parsing => 1
    case Labeling => 2
    case Completed => 3
    case Error => 4
  }

  /** The value stored in the status column. */
  function StatusValue(s: Status): (v: string)
    ensures 0 < |v| <= StatusMaxLength
    ensures (v, StatusDisplay(s)) in StatusChoices
  {
    StatusChoices[StatusIndex(s)].0
  }

  /** The human-readable name shown for a status. */
  function StatusDisplay(s: Status): string {
    StatusChoices[StatusIndex(s)].1
  }

  /** Reading a stored column value back; values outside the choices are rejected. */
  function ParseStatus(v: string): (r: Option<Status>)
    ensures r.Some? ==> StatusValue(r.value) == v
    ensures r.None? ==> forall k :: 0 <= k < |StatusChoices| ==> StatusChoices[k].0 != v
  {
    if v == "uploaded" then Some(Uploaded)
    else if v == "parsing" then Some(Parsing)
    else if v == "labeling" then Some(Labeling)
    else if v == "completed" then Some(Completed)
    else if v == "error" then Some(Error)
    else None
  }

  /** Every status survives a trip through its stored value, and every
      accepted value is the stored value of the status it reads as. */
  lemma StatusRoundTrip(s: Status, v: string)
    ensures ParseStatus(StatusValue(s)) == Some(s)
    ensures ParseStatus(v).Some? ==> StatusValue(ParseStatus(v).value) == v
  {
  }

  /** Distinct statuses are stored as distinct values. */
  lemma StatusValueInjective(s: Status, t: Status)
    requires StatusValue(s) == StatusValue(t)
    ensures s == t
  {
    StatusRoundTrip(s, StatusValue(s));
    StatusRoundTrip(t, StatusValue(t));
  }

  /** A chat document; `id` is the key the database assigned. The upload
      and completion timestamps are not modelled. */
  datatype ChatDocument = ChatDocument(
    id: nat,
    title: string,
    originalContent: string,
    status: Status,
    errorMessage: string)

  /** A freshly created document: status defaults to "uploaded" and the
      error message to the empty text. */
  function NewDocument(id: nat, title: string, content: string): (d: ChatDocument)
    ensures d.status == Uploaded && d.errorMessage == ""
    ensures d.id == id && d.title == title && d.originalContent == content
  {
    ChatDocument(id, title, content, Uploaded, "")
  }

  /** The display name of a document: its title, or "Chat <id>" without one. */
  function DocumentName(d: ChatDocument): (name: string)
    ensures name != []
    ensures d.title != "" ==> name == d.title
    ensures d.title == "" ==> |name| > 5 && name[..5] == "Chat " && name[5..] == NatToString(d.id)
  {
    if d.title != "" then d.title
    else
      var digits := NatToString(d.id);
      assert ("Chat " + digits)[5..] == digits;
      "Chat " + digits
  }

  /** Untitled documents are told apart by their names. */
  lemma UntitledNamesDistinct(d: ChatDocument, e: ChatDocument)
    requires d.title == "" && e.title == ""
    requires d.id != e.id
    ensures DocumentName(d) != DocumentName(e)
  {
    if DocumentName(d) == DocumentName(e) {
      NatToStringInjective(d.id, e.id);
    }
  }

  /** The width of the label column. */
  const LabelMaxLength := 255

  /** One stored question/answer pair; `labelText` (the `label` column) is "" until it is labelled. */
  datatype Session = Session(order: nat, question: string, answer: string, labelText: string)

  /** The name used for a session without a label: "Session <order>". */
  function SessionFallbackName(order: nat): (name: string)
    ensures |name| > 8 && name[..8] == "Session "
    ensures name[8..] == NatToString(order)
  {
    var digits := NatToString(order);
    assert ("Session " + digits)[8..] == digits;
    "Session " + digits
  }

  /** Distinct orders give distinct fallback names. */
  lemma SessionFallbackNamesDistinct(m: nat, n: nat)
    requires m != n
    ensures SessionFallbackName(m) != SessionFallbackName(n)
  {
    if SessionFallbackName(m) == SessionFallbackName(n) {
      NatToStringInjective(m, n);
    }
  }

  /** The display name of a session: its label, or the fallback name. */
  function SessionName(s: Session): (name: string)
    ensures name != []
    ensures s.labelText != "" ==> name == s.labelText
    ensures s.labelText == "" ==> name == SessionFallbackName(s.order)
  {
    if s.labelText != "" then s.labelText else SessionFallbackName(s.order)
  }

  const PreviewChars := 100

  /** The first 100 characters of the question, marked when cut. */
  function QuestionPreview(s: Session): (p: string)
    ensures |p| <= PreviewChars + |Ellipsis|
    ensures |s.question| <= PreviewChars ==> p == s.question
    ensures |s.question| > PreviewChars ==> |p| == PreviewChars + |Ellipsis| && p[..PreviewChars] == s.question[..PreviewChars] && p[PreviewChars..] == Ellipsis
  {
    Truncate(s.question, PreviewChars)
  }

  /** The number of sessions of a document. */
  function SessionCount(ss: seq<Session>): nat {
    |ss|
  }

  /** The number of sessions whose label is not empty. */
  function LabeledCount(ss: seq<Session>): (n: nat)
    ensures n <= SessionCount(ss)
    ensures n == SessionCount(ss) <==> forall i :: 0 <= i < |ss| ==> ss[i].labelText != ""
    ensures n == 0 <==> forall i :: 0 <= i < |ss| ==> ss[i].labelText == ""
    decreases |ss|
  {
    if ss == [] then 0
    else
      var rest := LabeledCount(ss[1..]);
      assert forall i :: 1 <= i < |ss| ==> ss[i] == ss[1..][i - 1];
      (if ss[0].labelText != "" then 1 else 0) + rest
  }

  /** Counting labelled sessions splits over concatenation. */
  lemma {:induction false} LabeledCountAppend(a: seq<Session>, b: seq<Session>)
    ensures LabeledCount(a + b) == LabeledCount(a) + LabeledCount(b)
    decreases |a|
  {
    if a != [] {
      assert (a + b)[1..] == a[1..] + b;
      LabeledCountAppend(a[1..], b);
    } else {
      assert a + b == b;
    }
  }

  /** The sessions of a document in the order they are listed: by
      ascending `order`, with no order used twice. */
  predicate ListedInOrder(ss: seq<Session>) {
    forall i, j :: 0 <= i < j < |ss| ==> ss[i].order < ss[j].order
  }
}
