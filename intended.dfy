/** The engine with three departures of Main.kt from its own conventions
    corrected: `Just` puts the matched literal in `result` and the
    rest of the input in `remaining`, a literal longer than the input fails
    with the whole input as the diagnostic slice instead of throwing, and
    `Padded` passes a failure of its parser through. `Then` is unchanged. */
module Intended {
  import opened Text
  import C = Chomp

  /** Corrected `Just(just).parse(input)`. */
  function ParseJust(just: string, input: string): (r: C.ParserResult)
    ensures !r.Failed() <==> StartsWith(input, just)
    ensures !r.Failed() ==> r.result == C.Some(C.Str(just)) && just + r.remaining == input
    ensures r.Failed() ==>
      && r.remaining == input && r.result == C.None && |r.errors| == 1
      && var e := r.errors[0];
         && e.expected == just && e.got != just
         && |e.got| == (if |input| < |just| then |input| else |just|)
         && e.got == input[..|e.got|]
  {
    StartsWithIsPrefix(input, just);
    if StartsWith(input, just) then
      assert just + input[|just|..] == input[..|just|] + input[|just|..];
      C.ParserResult(input[|just|..], C.Some(C.Str(just)), [])
    else
      var got := if |input| < |just| then input else input[..|just|];
      C.JustError(just, got).ToResult(input)
  }

  /** Corrected `parse` for every parser tree. */
  function Parse(p: C.Parser, input: string): (r: C.ParserResult)
    ensures |r.errors| <= 1
    ensures r.Failed() ==> r.result == C.None
    decreases p
  {
    match p
    case Just(just) => ParseJust(just, input)
    case Then(l, rp) =>
      var lr := Parse(l, input);
      if lr.Failed() then C.ParserResult(input, C.None, lr.errors)
      else
        var rr := Parse(rp, lr.remaining);
        if rr.Failed() then C.ParserResult(input, C.None, rr.errors)
        else C.ParserResult(rr.remaining, C.Some(C.Pair(lr.result, rr.result)), [])
    case Padded(q) =>
      var ir := Parse(q, TrimStart(input));
      if ir.Failed() then ir
      else C.ParserResult(TrimStart(ir.remaining), ir.result, [])
  }

  /** Exactly one of "a value is present" and "an error is reported" holds,
      for every parser tree and every input. */
  lemma {:induction false} ValueIffNoErrors(p: C.Parser, input: string)
    ensures Parse(p, input).result.Some? <==> !Parse(p, input).Failed()
  {
    match p
    case Just(just) =>
    case Then(l, rp) =>
      ValueIffNoErrors(l, input);
    case Padded(q) =>
      ValueIffNoErrors(q, TrimStart(input));
  }

  /** `b` is a suffix of `a`. */
  predicate IsSuffix(b: string, a: string) {
    |b| <= |a| && b == a[|a| - |b|..]
  }

  /** A successful parse leaves a suffix of its input. */
  lemma {:induction false} SuccessLeavesSuffix(p: C.Parser, input: string)
    ensures !Parse(p, input).Failed() ==> IsSuffix(Parse(p, input).remaining, input)
  {
    match p
    case Just(just) =>
    case Then(l, rp) =>
      var lr := Parse(l, input);
      if !lr.Failed() {
        SuccessLeavesSuffix(l, input);
        var rr := Parse(rp, lr.remaining);
        if !rr.Failed() {
          SuccessLeavesSuffix(rp, lr.remaining);
          SuffixOfSuffix(input, lr.remaining, rr.remaining);
          assert Parse(p, input).remaining == rr.remaining;
        }
      }
    case Padded(q) =>
      var t := TrimStart(input);
      var ir := Parse(q, t);
      if !ir.Failed() {
        SuccessLeavesSuffix(q, t);
        SuffixOfSuffix(input, t, ir.remaining);
        SuffixOfSuffix(input, ir.remaining, TrimStart(ir.remaining));
        assert Parse(p, input).remaining == TrimStart(ir.remaining);
      }
  }

  /** Being a suffix is transitive. */
  lemma SuffixOfSuffix(a: string, b: string, c: string)
    requires IsSuffix(b, a) && IsSuffix(c, b)
    ensures IsSuffix(c, a)
  {
    assert a[|a| - |b|..][|b| - |c|..] == a[|a| - |c|..];
  }

  /** A padded parser reports exactly the errors of its parser on the trimmed
      input. */
  lemma PaddedReportsErrors(q: C.Parser, input: string)
    ensures Parse(C.Padded(q), input).errors == Parse(q, TrimStart(input)).errors
  {
  }

  /** With the corrections the demonstration composition matches both
      literals and consumes the whole demonstration input. */
  lemma DemoParsesBothLiterals(input: string)
    requires input == "Hello,   world!  "
    ensures Parse(C.Just("Hello, ").AndThen(C.Just("world!").Pad()), input)
      == C.ParserResult("", C.Some(C.Pair(C.Some(C.Str("Hello, ")), C.Some(C.Str("world!")))), [])
  {
    var left, right := C.Just("Hello, "), C.Padded(C.Just("world!"));
    DemoLeft(input);
    assert input[7..] == "  " + "world!" + "  ";
    PaddedLiteralConsumesWhitespace("  ", "world!", "  ");
    assert C.Just("Hello, ").AndThen(C.Just("world!").Pad()) == C.Then(left, right);
  }

  /** The first step of the demonstration: the literal matches. */
  lemma DemoLeft(input: string)
    requires input == "Hello,   world!  "
    ensures input[7..] == "  world!  "
    ensures Parse(C.Just("Hello, "), input) == C.ParserResult(input[7..], C.Some(C.Str("Hello, ")), [])
  {
    assert input[..7] == "Hello, ";
  }

  /** A padded literal surrounded by whitespace only matches and consumes
      all of it. */
  lemma PaddedLiteralConsumesWhitespace(w1: string, lit: string, w2: string)
    requires forall i :: 0 <= i < |w1| ==> IsWhitespace(w1[i])
    requires forall i :: 0 <= i < |w2| ==> IsWhitespace(w2[i])
    requires lit != [] && !IsWhitespace(lit[0])
    ensures Parse(C.Padded(C.Just(lit)), w1 + lit + w2) == C.ParserResult("", C.Some(C.Str(lit)), [])
  {
    var s := lit + w2;
    assert w1 + lit + w2 == w1 + s;
    TrimStartSkipsPrefix(w1, s);
    TrimStartNoLeadingWhitespace(s);
    assert TrimStart(w1 + lit + w2) == s;
    StartsWithIsPrefix(s, lit);
    assert s[..|lit|] == lit && s[|lit|..] == w2;
    assert Parse(C.Just(lit), s) == C.ParserResult(w2, C.Some(C.Str(lit)), []);
    TrimStartSkipsPrefix(w2, "");
    assert w2 + "" == w2;
    assert TrimStart(w2) == "";
  }

  /** On input with no whitespace to skip on either side of the match, a
      padded parser behaves exactly as its parser, failures included. */
  lemma PaddedTransparent(q: C.Parser, input: string)
    requires input == [] || !IsWhitespace(input[0])
    requires var rem := Parse(q, input).remaining; rem == [] || !IsWhitespace(rem[0])
    ensures Parse(C.Padded(q), input) == Parse(q, input)
  {
    TrimStartNoLeadingWhitespace(input);
    PaddedStep(q, input, Parse(q, input));
  }

  /** One unfolding of `Parse` on a padded parser whose input needs no trimming. */
  lemma PaddedStep(q: C.Parser, input: string, r: C.ParserResult)
    requires TrimStart(input) == input && r == Parse(q, input)
    requires r.remaining == [] || !IsWhitespace(r.remaining[0])
    ensures Parse(C.Padded(q), input) == r
  {
    if !r.Failed() {
      TrimStartNoLeadingWhitespace(r.remaining);
      assert r.errors == [];
    }
  }

  /** A literal longer than the input is reported as a mismatch against the
      whole input. */
  lemma ShortInputReported()
    ensures Parse(C.Just("x"), "") == C.ParserResult("", C.None, [C.JustError("x", "")])
  {
  }
}
