/** `jsdocref/publishing/Code.js`: a block of code whose trailing run of
    newlines is collapsed to a single newline, with an optional language. */
module Codes {
  import opened Wrappers
  import opened JsStrings

  /** `Code.Language.JAVASCRIPT`, the prototype's default language, which the
      constructor always shadows. */
  const LanguageJavascript: string := "javascript"

  datatype Code = Code(code: string, lang: Option<string>)

  predicate EndsWithNewline(s: string) {
    |s| > 0 && s[|s| - 1] == '\n'
  }

  /** The text without its trailing run of newlines. */
  function StripTrailingNewlines(s: string): (r: string)
    ensures |r| <= |s| && r == s[..|r|]
    ensures forall i :: |r| <= i < |s| ==> s[i] == '\n'
    ensures !EndsWithNewline(r)
  {
    if EndsWithNewline(s) then StripTrailingNewlines(s[..|s| - 1]) else s
  }

  /** `code.replace(/\n+$/, '\n')`: a trailing run of one or more newlines
      becomes exactly one; text without a trailing newline is unchanged. */
  function NormaliseTrailingNewlines(s: string): (r: string)
    ensures !EndsWithNewline(s) ==> r == s
    ensures EndsWithNewline(s) <==> EndsWithNewline(r)
    ensures StripTrailingNewlines(r) == StripTrailingNewlines(s)
    ensures !(|r| >= 2 && r[|r| - 1] == '\n' && r[|r| - 2] == '\n')
  {
    if EndsWithNewline(s) then
      var body := StripTrailingNewlines(s);
      assert StripTrailingNewlines(body + "\n") == body by {
        assert (body + "\n")[..|body|] == body;
      }
      body + "\n"
    else s
  }

  /** Normalising twice is normalising once. */
  lemma NormaliseIdempotent(s: string)
    ensures NormaliseTrailingNewlines(NormaliseTrailingNewlines(s)) == NormaliseTrailingNewlines(s)
  {
    var r := NormaliseTrailingNewlines(s);
    if EndsWithNewline(r) {
      var body := StripTrailingNewlines(r);
      assert body == r[..|r| - 1];
    }
  }

  /** `new Code(code, opt_lang)`: the normalised code, and the language when it
      is truthy, `null` otherwise. */
  function NewCode(code: string, optLang: Option<string>): (c: Code)
    ensures GetCode(c) == NormaliseTrailingNewlines(code)
    ensures Truthy(optLang) ==> GetLanguage(c) == optLang
    ensures !Truthy(optLang) ==> GetLanguage(c).None?
  {
    Code(NormaliseTrailingNewlines(code), if Truthy(optLang) then optLang else None)
  }

  function GetCode(c: Code): string {
    c.code
  }

  function GetLanguage(c: Code): Option<string> {
    c.lang
  }

  /** `isBreakable()`: code is never broken across lines. */
  function IsBreakable(c: Code): (b: bool)
    ensures !b
  {
    false
  }

  /** Without a language the language is `null`, not the prototype's
      `javascript`: the constructor's `opt_lang || null` shadows it. */
  lemma DefaultLanguageIsNull(code: string)
    ensures GetLanguage(NewCode(code, None)) != Some(LanguageJavascript)
    ensures GetLanguage(NewCode(code, Some(""))).None?
  {
  }
}
