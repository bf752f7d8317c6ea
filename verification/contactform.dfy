/**
 The contact form's submit handler: three independent field checks, the
 error text each field shows, and the status line and form reset that
 follow only a submission with no errors. One submission runs to
 completion as a single step; the simulated send is not modelled
 separately.
 */
module ContactForm {
  import opened JsText

  const NameErrorText := "Please enter your name."
  const EmailErrorText := "Enter a valid email address."
  const MessageErrorText := "Message should be at least 10 characters."
  const SendingText := "Sending..."
  const SentText := "Message sent! I will reply soon."

  /** The form's entries by field name; a field the form lacks is None. */
  datatype FormData = FormData(name: Option<string>, email: Option<string>, message: Option<string>)

  /** The text of the three per-field error elements. */
  datatype FieldErrors = FieldErrors(name: string, email: string, message: string)

  /** What one submit event leaves behind: the error texts, every value the
      status line takes in order, and whether the form was reset. */
  datatype Submission = Submission(errors: FieldErrors, statusTrace: seq<string>, formReset: bool)

  /** The meaning of `/^\S+@\S+\.\S+$/`: no whitespace anywhere, an `@` with
      at least one character before it, then a `.` with at least one
      character between the two and at least one character after it. */
  predicate EmailPattern(s: string) {
    && (forall k :: 0 <= k < |s| ==> !IsWhitespace(s[k]))
    && exists at, dot :: 1 <= at && at + 2 <= dot && dot + 2 <= |s| && s[at] == '@' && s[dot] == '.'
  }

  /** Sample addresses against the pattern: a plain address matches; a
      missing local part, domain label or top-level label, or a space, does
      not. */
  lemma EmailPatternExamples()
    ensures EmailPattern("a@b.c")
    ensures !EmailPattern("@b.c") && !EmailPattern("a@.c") && !EmailPattern("a@b.")
    ensures !EmailPattern("a @b.c")
  {
    assert "a@b.c"[1] == '@' && "a@b.c"[3] == '.';
    assert "a @b.c"[1] == ' ';
  }

  predicate NameInvalid(v: Option<string>) {
    Falsy(v) || Utf16Length(Trim(v.value)) < 2
  }

  predicate EmailInvalid(v: Option<string>) {
    Falsy(v) || !EmailPattern(v.value)
  }

  predicate MessageInvalid(v: Option<string>) {
    Falsy(v) || Utf16Length(Trim(v.value)) < 10
  }

  /** Decides the email pattern in one left-to-right pass, as a regular
      expression engine would: it tracks whether whitespace was seen, the
      first `@` after position 0 and the last `.` that still has a character
      after it. Those two extremes are the best candidates, so checking them
      decides the pattern. */
  method MatchEmail(s: string) returns (ok: bool)
    ensures ok <==> EmailPattern(s)
  {
    var clean := true;
    var at := -1;
    var dot := -1;
    var i := 0;
    while i < |s|
      invariant 0 <= i <= |s|
      invariant clean <==> forall k :: 0 <= k < i ==> !IsWhitespace(s[k])
      invariant at == -1 ==> forall k :: 1 <= k < i ==> s[k] != '@'
      invariant at != -1 ==> 1 <= at < i && s[at] == '@' && forall k :: 1 <= k < at ==> s[k] != '@'
      invariant dot == -1 ==> forall k :: 0 <= k < i && k + 2 <= |s| ==> s[k] != '.'
      invariant dot != -1 ==> 0 <= dot < i && dot + 2 <= |s| && s[dot] == '.'
      invariant dot != -1 ==> forall k :: dot < k < i && k + 2 <= |s| ==> s[k] != '.'
    {
      if IsWhitespace(s[i]) {
        clean := false;
      }
      if s[i] == '@' && i >= 1 && at == -1 {
        at := i;
      }
      if s[i] == '.' && i + 2 <= |s| {
        dot := i;
      }
      i := i + 1;
    }
    if EmailPattern(s) {
      var a, d :| 1 <= a && a + 2 <= d && d + 2 <= |s| && s[a] == '@' && s[d] == '.';
      assert at != -1 && at <= a;
      assert dot != -1 && d <= dot;
    }
    ok := clean && at != -1 && dot != -1 && at + 2 <= dot && dot + 2 <= |s|;
  }

  /** The three field checks of one submission. Each field's error text is
      decided by that field alone: it is the field's message exactly when
      the field is invalid, and empty otherwise. */
  function Validate(data: FormData): (e: FieldErrors)
    ensures e.name in {"", NameErrorText} && e.email in {"", EmailErrorText}
    ensures e.message in {"", MessageErrorText}
    ensures e.name != "" <==> NameInvalid(data.name)
    ensures e.email != "" <==> EmailInvalid(data.email)
    ensures e.message != "" <==> MessageInvalid(data.message)
  {
    FieldErrors(
      if NameInvalid(data.name) then NameErrorText else "",
      if EmailInvalid(data.email) then EmailErrorText else "",
      if MessageInvalid(data.message) then MessageErrorText else "")
  }

  /** One submit event. The status starts cleared and, when any field is
      invalid, stays cleared with the form untouched; only when all three
      fields are valid does it pass through "Sending..." to the sent notice,
      after which the form is reset. */
  function Submit(data: FormData): (r: Submission)
    ensures |r.statusTrace| >= 1 && r.statusTrace[0] == ""
    ensures r.formReset <==> !NameInvalid(data.name) && !EmailInvalid(data.email) && !MessageInvalid(data.message)
    ensures r.formReset <==> r.errors == FieldErrors("", "", "")
    ensures !r.formReset ==> r.statusTrace == [""]
    ensures r.formReset ==> r.statusTrace == ["", SendingText, SentText]
    ensures r.errors == Validate(data)
  {
    var errors := Validate(data);
    var hasError := errors.name != "" || errors.email != "" || errors.message != "";
    if hasError then Submission(errors, [""], false)
    else Submission(errors, ["", SendingText, SentText], true)
  }

  /** Whitespace typed around a name does not change whether it is
      accepted. */
  lemma NameCheckIgnoresPadding(pre: string, v: string, post: string)
    requires AllWhitespace(pre) && AllWhitespace(post)
    ensures NameInvalid(Some(pre + v + post)) <==> NameInvalid(Some(v))
  {
    TrimIgnoresPadding(pre, v, post);
  }

  /** Whitespace typed around a message does not change whether it is
      accepted. */
  lemma MessageCheckIgnoresPadding(pre: string, v: string, post: string)
    requires AllWhitespace(pre) && AllWhitespace(post)
    ensures MessageInvalid(Some(pre + v + post)) <==> MessageInvalid(Some(v))
  {
    TrimIgnoresPadding(pre, v, post);
  }

  /** For a name within the Basic Multilingual Plane: it is accepted
      exactly when it has two non-whitespace characters. */
  lemma NameAcceptedIff(v: string)
    requires InBmp(v)
    ensures !NameInvalid(Some(v)) <==>
      exists i, j :: 0 <= i < j < |v| && !IsWhitespace(v[i]) && !IsWhitespace(v[j])
  {
    TrimmedLengthAtLeast(v, 2);
  }

  /** For any name: it is accepted exactly when some stretch from one
      non-whitespace character to another is at least two UTF-16 code units
      long, so a single character outside the Basic Multilingual Plane is
      enough. */
  lemma NameAcceptedIffCodeUnits(v: string)
    ensures !NameInvalid(Some(v)) <==>
      exists i, j :: 0 <= i <= j < |v| && !IsWhitespace(v[i]) && !IsWhitespace(v[j])
                     && Utf16Length(v[i..j + 1]) >= 2
  {
    TrimmedUtf16LengthAtLeast(v, 2);
  }

  /** For any message: it is accepted exactly when some stretch from one
      non-whitespace character to another is at least ten UTF-16 code units
      long. */
  lemma MessageAcceptedIffCodeUnits(v: string)
    ensures !MessageInvalid(Some(v)) <==>
      exists i, j :: 0 <= i <= j < |v| && !IsWhitespace(v[i]) && !IsWhitespace(v[j])
                     && Utf16Length(v[i..j + 1]) >= 10
  {
    TrimmedUtf16LengthAtLeast(v, 10);
  }

  /** Length is counted in code units: four emoji and a letter are nine
      units and rejected as a message, four emoji and two letters are ten
      and accepted, and one emoji alone is an acceptable name. */
  lemma SurrogatePairsCountTwice()
    ensures MessageInvalid(Some("\U{1F600}\U{1F600}\U{1F600}\U{1F600}a"))
    ensures !MessageInvalid(Some("\U{1F600}\U{1F600}\U{1F600}\U{1F600}ab"))
    ensures !NameInvalid(Some("\U{1F600}"))
  {
    var v := "\U{1F600}\U{1F600}\U{1F600}\U{1F600}ab";
    assert TrimStart(v, 0) == 0 && TrimEnd(v, 0, |v|) == |v|;
    TrimAt(v, 0, |v|);
    assert v[0..|v|] == v;
    FourFacesAndTwoLetters();
  }

  /** Four emoji followed by two letters take ten code units. */
  lemma FourFacesAndTwoLetters()
    ensures Utf16Length("\U{1F600}\U{1F600}\U{1F600}\U{1F600}ab") == 10
  {
    var e := "\U{1F600}";
    assert Utf16Length(e) == 2 by { assert e[..0] == []; }
    assert Utf16Length("ab") == 2 by { assert "ab"[..1] == "a" && "a"[..0] == []; }
    Utf16LengthAppend(e, e);
    Utf16LengthAppend(e + e, e + e);
    Utf16LengthAppend(e + e + e + e, "ab");
    assert "\U{1F600}\U{1F600}\U{1F600}\U{1F600}ab" == (e + e + e + e) + "ab";
  }

  /** For a message within the Basic Multilingual Plane: it is accepted
      exactly when its first and last non-whitespace characters span at
      least ten positions. */
  lemma MessageAcceptedIff(v: string)
    requires InBmp(v)
    ensures !MessageInvalid(Some(v)) <==>
      exists i, j :: 0 <= i <= j < |v| && j - i + 1 >= 10
                     && !IsWhitespace(v[i]) && !IsWhitespace(v[j])
  {
    TrimmedLengthAtLeast(v, 10);
  }
}
