/** The upload form of `main/forms.py`.

    Both fields are Django `CharField`s with the default `strip=True`, so
    each raw value is stripped before anything else looks at it; a missing
    value is the empty text. A non-empty stripped value then goes through
    the field's validators, each of which adds its error to the field's
    list: the length limit, if the field has one, and the refusal of NUL
    characters that every `CharField` carries. The title is optional and
    at most 255 characters long; the content is required, and
    `clean_content` runs only once the field itself is clean, rejecting
    content with fewer than 10 characters. */
module Forms {
  import opened Base
  import opened Text

  const TitleMaxLength := 255
  const ContentMinLength := 10
  const ContentTooShortMessage := "Chat content is too short. Please paste your full chat."

  /** Why a field was rejected: the value was empty although required,
      longer than the field allows, held a NUL character, or was refused
      by a clean hook with a message. */
  datatype FieldError =
    | Required
    | TooLong(limit: nat, actual: nat)
    | NullCharacters
    | Invalid(message: string)

  /** The per-field error lists of a rejected form; empty for a field that passed. */
  datatype UploadErrors = UploadErrors(title: seq<FieldError>, content: seq<FieldError>)

  /** The cleaned data of an accepted form. */
  datatype UploadData = UploadData(title: string, content: string)

  /** `clean_content`: the already stripped content is accepted, unchanged,
      when it still has at least 10 characters after stripping. */
  function CleanContent(content: string): (r: Result<string, FieldError>)
    ensures r.Success? <==> |Strip(content)| >= ContentMinLength
    ensures r.Success? ==> r.value == content
    ensures r.Failure? ==> r.error == Invalid(ContentTooShortMessage)
  {
    if |Strip(content)| < ContentMinLength then Failure(Invalid(ContentTooShortMessage))
    else Success(content)
  }

  /** The `title` field: stripped and optional; a non-empty title is
      checked against the 255-character limit and for NUL characters, and
      both errors are reported when both apply, the length first. */
  function CleanTitleField(raw: string): (r: Result<string, seq<FieldError>>)
    ensures r.Success? <==> |Strip(raw)| <= TitleMaxLength && '\0' !in Strip(raw)
    ensures r.Success? ==> r.value == Strip(raw) && IsStripped(r.value)
    ensures r.Failure? ==> (TooLong(TitleMaxLength, |Strip(raw)|) in r.error <==> |Strip(raw)| > TitleMaxLength)
    ensures r.Failure? ==> (NullCharacters in r.error <==> '\0' in Strip(raw))
    ensures r.Failure? ==> 0 < |r.error| <= 2 && forall e :: e in r.error ==> e.TooLong? || e == NullCharacters
    ensures r.Failure? && |Strip(raw)| > TitleMaxLength ==> r.error[0] == TooLong(TitleMaxLength, |Strip(raw)|)
  {
    var t := Strip(raw);
    TrimFacts(raw, IsSpace);
    var errors := (if |t| > TitleMaxLength then [TooLong(TitleMaxLength, |t|)] else [])
      + (if '\0' in t then [NullCharacters] else []);
    if errors == [] then Success(t) else Failure(errors)
  }

  /** The `content` field: stripped and required; non-empty content is
      checked for NUL characters, and only clean content reaches
      `clean_content`, so each rejection carries exactly one error. */
  function CleanContentField(raw: string): (r: Result<string, seq<FieldError>>)
    ensures r.Success? <==> |Strip(raw)| >= ContentMinLength && '\0' !in Strip(raw)
    ensures r.Success? ==> r.value == Strip(raw) && IsStripped(r.value)
    ensures Strip(raw) == [] ==> r == Failure([Required])
    ensures Strip(raw) != [] && '\0' in Strip(raw) ==> r == Failure([NullCharacters])
    ensures Strip(raw) != [] && '\0' !in Strip(raw) && |Strip(raw)| < ContentMinLength
      ==> r == Failure([Invalid(ContentTooShortMessage)])
  {
    var c := Strip(raw);
    TrimFacts(raw, IsSpace);
    TrimFacts(c, IsSpace);
    if c == [] then Failure([Required])
    else if '\0' in c then Failure([NullCharacters])
    else
      match CleanContent(c)
      case Success(v) => Success(v)
      case Failure(e) => Failure([e])
  }

  /** `is_valid()` with the cleaned data: the form is accepted exactly when
      both fields are, and a rejection reports every failing field with
      that field's own errors. */
  function ValidateUpload(title: string, content: string): (r: Result<UploadData, UploadErrors>)
    ensures r.Success? <==>
      && |Strip(title)| <= TitleMaxLength && '\0' !in Strip(title)
      && |Strip(content)| >= ContentMinLength && '\0' !in Strip(content)
    ensures r.Success? ==> r.value == UploadData(Strip(title), Strip(content))
    ensures r.Failure? ==> (r.error.title != [] <==> |Strip(title)| > TitleMaxLength || '\0' in Strip(title))
    ensures r.Failure? ==> (r.error.content != [] <==> |Strip(content)| < ContentMinLength || '\0' in Strip(content))
    ensures r.Failure? && r.error.title != [] ==> CleanTitleField(title) == Failure(r.error.title)
    ensures r.Failure? && r.error.content != [] ==> CleanContentField(content) == Failure(r.error.content)
  {
    var t := CleanTitleField(title);
    var c := CleanContentField(content);
    if t.Success? && c.Success? then Success(UploadData(t.value, c.value))
    else Failure(UploadErrors(
      if t.Failure? then t.error else [],
      if c.Failure? then c.error else []))
  }

  /** Whitespace around the pasted content changes nothing. */
  lemma ContentPaddingIrrelevant(pre: string, raw: string, post: string)
    requires AllDrop(pre, IsSpace) && AllDrop(post, IsSpace)
    ensures CleanContentField(pre + raw + post) == CleanContentField(raw)
  {
    TrimPadding(pre, raw, post, IsSpace);
  }

  /** Submitting the cleaned content again gives the same outcome: the
      field is idempotent on what it accepts. */
  lemma CleanContentFieldIdempotent(raw: string)
    requires CleanContentField(raw).Success?
    ensures CleanContentField(CleanContentField(raw).value) == CleanContentField(raw)
  {
    TrimFacts(Strip(raw), IsSpace);
  }
}
