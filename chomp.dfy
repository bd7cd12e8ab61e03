/** The parser-combinator engine of Main.kt as it is written: a tree of
    immutable parser descriptors (`Just`, `Then`, `Padded`) and one recursive
    `Parse` that threads a `ParserResult` through it. */
module Chomp {
  import opened Text

  /** Kotlin's nullable `T?`. */
  datatype Option<+T> = None | Some(value: T)

  /** What a parser yields: text from `Just`, a pair from `Then`. Each half of
      a pair is kept as it arrived, so a null from an inner parser stays null. */
  datatype Value = Str(text: string) | Pair(first: Option<Value>, second: Option<Value>)

  /** `ParseError`; its only implementation is `JustError`. */
  datatype ParseError = JustError(expected: string, got: string) {

    /** The diagnostic text: `Expected: "<expected>" got: "<got>"`. */
    function ToString(): (r: string)
      ensures |r| == |expected| + |got| + 20
      ensures r[..11] == "Expected: \"" && r[11..11 + |expected|] == expected
      ensures r[11 + |expected|..19 + |expected|] == "\" got: \""
      ensures r[19 + |expected|..|r| - 1] == got && r[|r| - 1] == '"'
    {
      "Expected: \"" + expected + "\" got: \"" + got + "\""
    }

    /** A failed result that carries this one error and no value. */
    function ToResult(remaining: string): (r: ParserResult)
      ensures r.Failed() && r.errors == [this] && r.result == None
      ensures r.remaining == remaining
    {
      ParserResult(remaining, None, [this])
    }
  }

  /** `ParserResult`, with its fields in declaration order. */
  datatype ParserResult = ParserResult(remaining: string, result: Option<Value>, errors: seq<ParseError>) {
    /** `errors.isNotEmpty()`, the test every combinator uses for failure. */
    predicate Failed() { errors != [] }
  }

  /** A call either returns a result or throws, which happens only when `Just`
      takes a substring past the end of a short input. */
  datatype Outcome = Returned(res: ParserResult) | OutOfBounds

  /** The parser tree: the literal matcher and the two combinators. */
  datatype Parser = Just(just: string) | Then(left: Parser, right: Parser) | Padded(parser: Parser) {

    /** `then`: sequences this parser with `next`, leaving both as they are. */
    function AndThen(next: Parser): (p: Parser)
      ensures p.Then? && p.left == this && p.right == next
      ensures Literals(p) == Literals(this) + Literals(next)
    {
      Then(this, next)
    }

    /** `padded`: wraps this parser so that whitespace around it is skipped. */
    function Pad(): (p: Parser)
      ensures p.Padded? && p.parser == this
      ensures Literals(p) == Literals(this)
    {
      Padded(this)
    }
  }

  /** The literals a parser tree can try to match. */
  function Literals(p: Parser): set<string> {
    match p
    case Just(just) => {just}
    case Then(l, r) => Literals(l) + Literals(r)
    case Padded(q) => Literals(q)
  }

  /** `Just(just).parse(input)`. On success the matched literal lands in
      `remaining` and the rest of the input in `result`, in the order the
      constructor call passes them. On failure the diagnostic slice is taken
      with `substring(just.indices)`, which throws when the input is shorter
      than the literal. */
  function ParseJust(just: string, input: string): (o: Outcome)
    ensures o == OutOfBounds <==> |input| < |just|
    ensures o.Returned? && !o.res.Failed() <==> StartsWith(input, just)
    ensures StartsWith(input, just) ==>
      && o.res.remaining == just
      && o.res.result == Some(Str(input[|just|..]))
      && just + o.res.result.value.text == input
    ensures !StartsWith(input, just) && |just| <= |input| ==>
      && o.res.remaining == input && o.res.result == None
      && o.res.errors == [JustError(just, input[..|just|])]
      && input[..|just|] != just
  {
    StartsWithIsPrefix(input, just);
    if StartsWith(input, just) then
      assert just + input[|just|..] == input[..|just|] + input[|just|..];
      Returned(ParserResult(just, Some(Str(input[|just|..])), []))
    else if |input| < |just| then
      OutOfBounds
    else
      Returned(JustError(just, input[..|just|]).ToResult(input))
  }

  /** `parse` for every parser tree. `Then` stops at the first failing side and
      then reports the input it was given; `Padded` trims leading whitespace
      before and after its inner parser and rebuilds the result without the
      inner errors. A throw anywhere below propagates unchanged. */
  function Parse(p: Parser, input: string): (o: Outcome)
    ensures o.Returned? ==> |o.res.errors| <= 1
    ensures o.Returned? && o.res.Failed() ==> o.res.result == None
    decreases p
  {
    match p
    case Just(just) => ParseJust(just, input)
    case Then(l, r) =>
      (match Parse(l, input)
       case OutOfBounds => OutOfBounds
       case Returned(lr) =>
         if lr.Failed() then Returned(ParserResult(input, None, lr.errors))
         else
           match Parse(r, lr.remaining)
           case OutOfBounds => OutOfBounds
           case Returned(rr) =>
             if rr.Failed() then Returned(ParserResult(input, None, rr.errors))
             else Returned(ParserResult(rr.remaining, Some(Pair(lr.result, rr.result)), [])))
    case Padded(q) =>
      (match Parse(q, TrimStart(input))
       case OutOfBounds => OutOfBounds
       case Returned(ir) => Returned(ParserResult(TrimStart(ir.remaining), ir.result, [])))
  }

  /** The empty literal matches every input and consumes nothing. */
  lemma JustEmptySucceeds(input: string)
    ensures Parse(Just(""), input) == Returned(ParserResult("", Some(Str(input)), []))
  {
  }

  /** Every error a parse reports is a mismatch of one of the tree's literals
      against a slice of the same length that differs from it. */
  lemma {:induction false} ErrorsComeFromLiterals(p: Parser, input: string)
    requires Parse(p, input).Returned?
    ensures forall e :: e in Parse(p, input).res.errors ==>
      e.expected in Literals(p) && |e.got| == |e.expected| && e.got != e.expected
  {
    match p
    case Just(just) =>
    case Then(l, r) =>
      ErrorsComeFromLiterals(l, input);
      var lr := Parse(l, input).res;
      if !lr.Failed() {
        ErrorsComeFromLiterals(r, lr.remaining);
      }
    case Padded(q) =>
  }

  /** `Then` short-circuits on the left: a failing or throwing left side
      decides the outcome, whatever the right side is. */
  lemma ThenLeftFailure(l: Parser, r: Parser, input: string)
    requires Parse(l, input).OutOfBounds? || Parse(l, input).res.Failed()
    ensures Parse(l, input).OutOfBounds? ==> Parse(Then(l, r), input) == OutOfBounds
    ensures Parse(l, input).Returned? ==>
      Parse(Then(l, r), input) == Returned(ParserResult(input, None, Parse(l, input).res.errors))
    ensures forall r' :: Parse(Then(l, r'), input) == Parse(Then(l, r), input)
  {
  }

  /** A right side that fails on what the left side left behind makes `Then`
      fail with exactly its errors, reported against the original input. */
  lemma ThenRightFailure(l: Parser, r: Parser, input: string)
    requires Parse(l, input).Returned? && !Parse(l, input).res.Failed()
    requires Parse(r, Parse(l, input).res.remaining).Returned?
    requires Parse(r, Parse(l, input).res.remaining).res.Failed()
    ensures Parse(Then(l, r), input) ==
      Returned(ParserResult(input, None, Parse(r, Parse(l, input).res.remaining).res.errors))
  {
  }

  /** A right side that throws on what the left side left behind makes
      `Then` throw. */
  lemma ThenRightThrows(l: Parser, r: Parser, input: string)
    requires Parse(l, input).Returned? && !Parse(l, input).res.Failed()
    requires Parse(r, Parse(l, input).res.remaining).OutOfBounds?
    ensures Parse(Then(l, r), input) == OutOfBounds
  {
  }

  /** When both sides succeed, `Then` succeeds with the right side's
      remainder and the ordered pair of the two results. */
  lemma ThenSuccess(l: Parser, r: Parser, input: string)
    requires Parse(l, input).Returned? && !Parse(l, input).res.Failed()
    requires Parse(r, Parse(l, input).res.remaining).Returned?
    requires !Parse(r, Parse(l, input).res.remaining).res.Failed()
    ensures var lr, rr := Parse(l, input).res, Parse(r, Parse(l, input).res.remaining).res;
      Parse(Then(l, r), input) == Returned(ParserResult(rr.remaining, Some(Pair(lr.result, rr.result)), []))
  {
  }

  /** Whichever side fails, a failed `Then` reports the input it was given. */
  lemma ThenFailureReportsInput(l: Parser, r: Parser, input: string)
    requires Parse(Then(l, r), input).Returned? && Parse(Then(l, r), input).res.Failed()
    ensures Parse(Then(l, r), input).res.remaining == input
  {
  }

  /** `Padded` runs its parser on the trimmed input, never reports an error,
      and leaves a remainder that does not start with whitespace. */
  lemma PaddedResult(q: Parser, input: string)
    ensures Parse(Padded(q), input).OutOfBounds? <==> Parse(q, TrimStart(input)).OutOfBounds?
    ensures Parse(Padded(q), input).Returned? ==>
      var o, ir := Parse(Padded(q), input).res, Parse(q, TrimStart(input)).res;
      && o.errors == []
      && o.result == ir.result
      && o.remaining == TrimStart(ir.remaining)
      && (o.remaining == [] || !IsWhitespace(o.remaining[0]))
  {
  }

  /** Whitespace in front of a padded parser's input makes no difference. */
  lemma PaddedIgnoresLeadingWhitespace(q: Parser, w: string, input: string)
    requires forall i :: 0 <= i < |w| ==> IsWhitespace(w[i])
    ensures Parse(Padded(q), w + input) == Parse(Padded(q), input)
  {
    TrimStartSkipsPrefix(w, input);
  }

  /** On input that has no whitespace to skip on either side of the match,
      `Padded` keeps its parser's remainder and result; only errors are lost. */
  lemma PaddedTransparent(q: Parser, input: string)
    requires input == [] || !IsWhitespace(input[0])
    requires Parse(q, input).Returned?
    requires var rem := Parse(q, input).res.remaining; rem == [] || !IsWhitespace(rem[0])
    ensures Parse(Padded(q), input).res.remaining == Parse(q, input).res.remaining
    ensures Parse(Padded(q), input).res.result == Parse(q, input).res.result
    ensures !Parse(q, input).res.Failed() ==> Parse(Padded(q), input) == Parse(q, input)
  {
    TrimStartNoLeadingWhitespace(input);
    TrimStartNoLeadingWhitespace(Parse(q, input).res.remaining);
  }

  /** The swapped fields of `Just` make `Then` feed the matched literal, not
      the rest of the input, to its right side: the demonstration composition
      on its demonstration input ends with the first literal as remainder, the
      unconsumed text as the left value and no right value. */
  lemma DemoSwapsFields(input: string)
    requires input == "Hello,   world!  "
    ensures Parse(Just("Hello, ").AndThen(Just("world!").Pad()), input)
      == Returned(ParserResult("Hello, ", Some(Pair(Some(Str("  world!  ")), None)), []))
  {
    var left, right := Just("Hello, "), Padded(Just("world!"));
    assert StartsWith(input, "Hello, ") by {
      assert input[..7] == "Hello, ";
      StartsWithIsPrefix(input, "Hello, ");
    }
    assert input[7..] == "  world!  ";
    assert Parse(left, input) == Returned(ParserResult("Hello, ", Some(Str("  world!  ")), []));
    assert !IsWhitespace('H');
    TrimStartNoLeadingWhitespace("Hello, ");
    assert !StartsWith("Hello, ", "world!") by { assert "Hello, "[0] != "world!"[0]; }
    assert "Hello, "[..6] == "Hello,";
    assert Parse(Just("world!"), "Hello, ") ==
      Returned(ParserResult("Hello, ", None, [JustError("world!", "Hello,")]));
    assert Parse(right, "Hello, ") == Returned(ParserResult("Hello, ", None, []));
    ThenSuccess(left, right, input);
    assert Just("Hello, ").AndThen(Just("world!").Pad()) == Then(left, right);
  }

  /** After a matching literal, the right side of `Then` runs on the literal
      itself, and the pair's first half is the unconsumed rest of the input. */
  lemma ThenFeedsMatchedLiteral(just: string, r: Parser, input: string)
    requires just <= input
    ensures Parse(r, just).OutOfBounds? ==> Parse(Then(Just(just), r), input) == OutOfBounds
    ensures Parse(r, just).Returned? && Parse(r, just).res.Failed() ==>
      Parse(Then(Just(just), r), input) == Returned(ParserResult(input, None, Parse(r, just).res.errors))
    ensures Parse(r, just).Returned? && !Parse(r, just).res.Failed() ==>
      Parse(Then(Just(just), r), input) ==
        Returned(ParserResult(Parse(r, just).res.remaining,
                              Some(Pair(Some(Str(input[|just|..])), Parse(r, just).res.result)), []))
  {
    StartsWithIsPrefix(input, just);
  }

  /** A literal longer than the input throws instead of reporting a mismatch. */
  lemma ShortInputThrows()
    ensures Parse(Just("x"), "") == OutOfBounds
  {
  }

  /** `Padded` turns its parser's failure into an error-free result with no
      value. */
  lemma PaddedDropsErrors()
    ensures Parse(Just("a"), "b").res.Failed()
    ensures Parse(Padded(Just("a")), "b") == Returned(ParserResult("b", None, []))
  {
    assert !StartsWith("b", "a") by { assert "b"[0] != "a"[0]; }
    assert "b"[..1] == "b";
    assert Parse(Just("a"), "b") == Returned(ParserResult("b", None, [JustError("a", "b")]));
    assert !IsWhitespace('b');
    TrimStartNoLeadingWhitespace("b");
  }
}
