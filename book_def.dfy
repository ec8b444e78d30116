/** The TODO-detection of `BookDef::validate` (src/def.rs). */
module BookDef {
  import opened Wrappers
  import opened Lang

  /** ASCII lower-casing of one character; other characters are unchanged. */
  function AsciiLower(c: char): char
  {
    if 'A' <= c <= 'Z' then (c as int + 32) as char else c
  }

  /** `str::eq_ignore_ascii_case`. */
  predicate EqIgnoreAsciiCase(a: string, b: string)
  {
    |a| == |b| && forall i :: 0 <= i < |a| ==> AsciiLower(a[i]) == AsciiLower(b[i])
  }

  /** A field value that marks the field as still to be written. */
  predicate IsTodo(s: string)
  {
    EqIgnoreAsciiCase(s, "todo")
  }

  /** `IsTodo` holds exactly of the sixteen case variants of "todo"; a longer string containing it does not count. */
  lemma IsTodoIff(s: string)
    ensures IsTodo(s) <==> |s| == 4 && s[0] in "tT" && s[1] in "oO" && s[2] in "dD" && s[3] in "oO"
  {
    if |s| == 4 {
      if IsTodo(s) {
        assert AsciiLower(s[0]) == 't' && AsciiLower(s[1]) == 'o' && AsciiLower(s[2]) == 'd' && AsciiLower(s[3]) == 'o';
      }
    }
  }

  /** `log_if_todo_opt`: a present value spelling "todo" in any ASCII case. */
  predicate LogIfTodoOpt(s: Option<string>)
  {
    s.Some? && IsTodo(s.value)
  }

  /** `log_if_todo` over `iter()`: some language variant of the string spells "todo". */
  predicate LogIfTodo(s: seq<Pair>)
  {
    exists i :: 0 <= i < |s| && IsTodo(s[i].1)
  }

  datatype ValidationError = ValidationError

  /** The fields of a book definition that `validate` looks at. */
  datatype BookFields = BookFields(
    title: StrLang, subtitle: Option<string>, author: StrLang, translator: Option<string>)

  /**
   * `validate`: accumulates whether any of title, subtitle, author or
   * translator is marked TODO (the warning is only logged) and always succeeds.
   */
  method Validate(def: BookFields) returns (r: Result<(), ValidationError>, warned: bool)
    ensures r == Ok(())
    ensures warned <==> LogIfTodo(def.title.Pairs()) || LogIfTodoOpt(def.subtitle)
                        || LogIfTodo(def.author.Pairs()) || LogIfTodoOpt(def.translator)
  {
    var w := false;
    w := w || LogIfTodo(def.title.Pairs());
    w := w || LogIfTodoOpt(def.subtitle);
    w := w || LogIfTodo(def.author.Pairs());
    w := w || LogIfTodoOpt(def.translator);
    warned := w;
    r := Ok(());
  }
}
