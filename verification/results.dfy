/** `Result`: the error value every operation of the server returns. An
    empty code means success; the description is a formatted message. */
module Results {
  import opened StringUtils

  datatype Result = Result(code: string, description: string)

  /** `Result::ok()`, also the default-constructed value. */
  function Ok(): (r: Result)
    ensures r.code == "" && r.description == "ok"
    ensures !IsError(r)
  {
    Result("", "ok")
  }

  /** `operator bool`: true exactly when the code is non-empty, so
      `if (result)` tests for an error. */
  predicate IsError(r: Result) {
    |r.code| > 0
  }

  /** The error constructor `Result(code, description, args...)`: the
      description is formatted with the arguments, already printed. */
  function Error(code: string, description: string, args: seq<string>): (r: Result)
    ensures r.code == code && r.description == Format(description, args)
    ensures |code| > 0 ==> IsError(r)
  {
    Result(code, Format(description, args))
  }

  /** A message without placeholders is kept as it is. */
  lemma ErrorPlain(code: string, description: string, args: seq<string>)
    requires NoHole(description)
    ensures Error(code, description, args) == Result(code, description)
  {
    FormatNoHole(description, args);
  }

  /** An error whose message has a single placeholder: the argument lands
      where the `{}` was. */
  lemma ErrorWithOne(code: string, pre: string, arg: string, post: string)
    requires NoHole(pre) && NoHole(post)
    ensures Error(code, pre + "{}" + post, [arg]).description == pre + arg + post
  {
    FormatHole(pre, post, arg, []);
    assert [arg] + [] == [arg];
  }

  const LOG_TEMPLATE := "result_code: `" + "{}" + ("`, description: " + "{}" + "")
  const MESSAGE_TEMPLATE := "result_code: `" + "{}" + ("`\ndescription: " + "{}" + "")

  /** `toLog()`. */
  function ToLog(r: Result): (s: string)
    ensures s == "result_code: `" + r.code + "`, description: " + r.description
  {
    FormatTwo("result_code: `", "`, description: ", r.code, r.description);
    Format(LOG_TEMPLATE, [r.code, r.description])
  }

  /** `toMessage()`: as `toLog` with a line break before the description. */
  function ToMessage(r: Result): (s: string)
    ensures s == "result_code: `" + r.code + "`\ndescription: " + r.description
  {
    FormatTwo("result_code: `", "`\ndescription: ", r.code, r.description);
    Format(MESSAGE_TEMPLATE, [r.code, r.description])
  }

  /** A two-placeholder template that ends in its second placeholder. */
  lemma FormatTwo(p: string, q: string, a: string, b: string)
    requires '}' !in p && '}' !in q
    ensures Format(p + "{}" + (q + "{}" + ""), [a, b]) == p + a + q + b
  {
    NoCloseNoHole(p);
    NoCloseNoHole(q);
    assert [a, b] == [a] + [b];
    FormatHole(p, q + "{}" + "", a, [b]);
    FormatHole(q, "", b, []);
    assert [b] + [] == [b];
    assert p + a + (q + b + "") == p + a + q + b;
  }

  /** What an operation that also produces a value returns: the value, or
      the error that stopped it. */
  datatype Outcome<T> = Success(value: T) | Failure(error: Result)
}
