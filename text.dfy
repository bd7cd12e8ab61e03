/** The two Kotlin string operations the parsers rely on, `startsWith` and
    `trimStart`, written out as recursive functions over `seq<char>`. */
module Text {

  /** Kotlin's `Char.isWhitespace` on the JVM: `Character.isWhitespace` or
      `Character.isSpaceChar`, listed by code point. */
  predicate IsWhitespace(c: char) {
    var n := c as int;
    || 9 <= n <= 13          // tab, line feed, vertical tab, form feed, carriage return
    || 28 <= n <= 32         // file/group/record/unit separators and space
    || n == 0xA0             // no-break space
    || n == 0x1680
    || 0x2000 <= n <= 0x200A
    || n == 0x2028 || n == 0x2029
    || n == 0x202F || n == 0x205F || n == 0x3000
  }

  /** `s.startsWith(prefix)`, compared one character at a time. */
  predicate StartsWith(s: string, prefix: string) {
    if prefix == [] then true
    else if s == [] then false
    else s[0] == prefix[0] && StartsWith(s[1..], prefix[1..])
  }

  /** Starting with a prefix means being at least as long and agreeing with it
      on its first characters. */
  lemma {:induction false} StartsWithIsPrefix(s: string, prefix: string)
    ensures StartsWith(s, prefix) <==> |prefix| <= |s| && s[..|prefix|] == prefix
  {
    if prefix != [] && s != [] {
      StartsWithIsPrefix(s[1..], prefix[1..]);
      if |prefix| <= |s| {
        assert s[..|prefix|] == [s[0]] + s[1..][..|prefix| - 1];
      }
    }
  }

  /** `s.trimStart()`: drops every leading whitespace character. */
  function TrimStart(s: string): (r: string)
    ensures |r| <= |s| && r == s[|s| - |r|..]
    ensures forall i :: 0 <= i < |s| - |r| ==> IsWhitespace(s[i])
    ensures r == [] || !IsWhitespace(r[0])
  {
    if s != [] && IsWhitespace(s[0]) then TrimStart(s[1..]) else s
  }

  /** Text that does not start with whitespace is left as it is. */
  lemma TrimStartNoLeadingWhitespace(s: string)
    requires s == [] || !IsWhitespace(s[0])
    ensures TrimStart(s) == s
  {
  }

  /** Putting whitespace in front of a text does not change what trimming gives. */
  lemma {:induction false} TrimStartSkipsPrefix(w: string, s: string)
    requires forall i :: 0 <= i < |w| ==> IsWhitespace(w[i])
    ensures TrimStart(w + s) == TrimStart(s)
  {
    if w == [] {
      assert w + s == s;
    } else {
      assert (w + s)[0] == w[0] && (w + s)[1..] == w[1..] + s;
      TrimStartSkipsPrefix(w[1..], s);
    }
  }
}
