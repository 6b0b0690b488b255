/** The add-repository form: two text fields and a submit handler that
    validates them and forwards the trimmed values to the page. */
module AddForm {
  import opened JsString

  /** The suffix every submitted URL must carry. */
  const GitSuffix: string := ".git"

  /** What one submission does. The two rejections are the two error
      notifications; `Accepted(name, url)` is the single call of the
      `onAdd` callback, with its two arguments. */
  datatype SubmitOutcome =
    | MissingField
    | BadSuffix
    | Accepted(name: string, url: string)

  /** The outcome of submitting the typed `name` and `url`. The blank check
      comes first and looks at the trimmed values; the suffix check looks at
      the URL as typed; an accepted submission forwards the trimmed values. */
  function Validate(name: string, url: string): (r: SubmitOutcome)
    ensures r.MissingField? <==> AllWhitespace(name) || AllWhitespace(url)
    ensures r.BadSuffix? <==>
              !AllWhitespace(name) && !AllWhitespace(url) && !EndsWith(url, GitSuffix)
    ensures r.Accepted? ==> r.name == Trim(name) && r.url == Trim(url)
    ensures r.Accepted? ==> r.name != [] && EndsWith(r.url, GitSuffix)
  {
    if Trim(name) == [] || Trim(url) == [] then
      MissingField
    else if !EndsWith(url, GitSuffix) then
      BadSuffix
    else
      TrimKeepsSuffix(url, GitSuffix);
      Accepted(Trim(name), Trim(url))
  }

  /** A URL whose only fault is a trailing space is rejected, although its
      trimmed form, which is what would have been forwarded, ends in `.git`. */
  lemma TrailingSpaceRejected()
    ensures Validate("x", "x/y.git ") == BadSuffix
    ensures Trim("x/y.git ") == "x/y.git" && EndsWith("x/y.git", GitSuffix)
  {
    var u := "x/y.git ";
    assert !IsWhitespace(u[0]) && !IsWhitespace("x"[0]);
    assert !EndsWith(u, GitSuffix) by {
      assert u[|u| - 1] == ' ' != GitSuffix[3];
    }
    assert TrimStart(u) == u;
    assert IsWhitespace(u[7]) && u[..7] == "x/y.git";
    assert TrimEnd("x/y.git") == "x/y.git";
  }

  /** The form's state: the text of its two input fields. */
  class Form {
    var name: string
    var url: string

    /** Both fields start empty. */
    constructor ()
      ensures name == "" && url == ""
    {
      name, url := "", "";
    }

    /** Typing into the name field. */
    method SetName(value: string)
      modifies this
      ensures name == value && url == old(url)
    {
      name := value;
    }

    /** Typing into the URL field. */
    method SetUrl(value: string)
      modifies this
      ensures url == value && name == old(name)
    {
      url := value;
    }

    /** The submit handler: a rejection leaves both fields as typed; an
        acceptance forwards the trimmed values and clears both fields. */
    method Submit() returns (outcome: SubmitOutcome)
      modifies this
      ensures outcome == Validate(old(name), old(url))
      ensures outcome.Accepted? ==> name == "" && url == ""
      ensures !outcome.Accepted? ==> name == old(name) && url == old(url)
    {
      var trimmedName, trimmedUrl := Trim(name), Trim(url);
      if trimmedName == [] || trimmedUrl == [] {
        return MissingField;
      }
      if !EndsWith(url, GitSuffix) {
        return BadSuffix;
      }
      outcome := Accepted(trimmedName, trimmedUrl);
      name := "";
      url := "";
    }
  }
}
