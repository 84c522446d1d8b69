/**
 * The JavaScript string operations the project generator is built from:
 * String.prototype.trim, String.prototype.split with a one-character
 * separator, Array.prototype.join, and the ASCII character classes of its
 * regular expressions. Strings are sequences of Unicode scalar values.
 */
module Text {

  // ---------------------------------------------------------------------
  // Character classes
  // ---------------------------------------------------------------------

  /** WhiteSpace and LineTerminator of ECMAScript: the characters trim() removes. */
  predicate IsWhitespace(c: char) {
    c == '\t' || c == '\n' || c == '\U{B}' || c == '\U{C}' || c == '\r' || c == ' '
    || c == '\U{A0}' || c == '\U{1680}' || ('\U{2000}' <= c <= '\U{200A}')
    || c == '\U{2028}' || c == '\U{2029}' || c == '\U{202F}' || c == '\U{205F}'
    || c == '\U{3000}' || c == '\U{FEFF}'
  }

  predicate IsAsciiDigit(c: char) { '0' <= c <= '9' }

  predicate IsAsciiUpper(c: char) { 'A' <= c <= 'Z' }

  /** The regular-expression class [a-zA-Z0-9]. */
  predicate IsAsciiAlnum(c: char) { 'a' <= c <= 'z' || IsAsciiUpper(c) || IsAsciiDigit(c) }

  predicate AllAsciiAlnum(s: string) { forall k :: 0 <= k < |s| ==> IsAsciiAlnum(s[k]) }

  /** toLowerCase() on one character, for the ASCII range. */
  function LowerAscii(c: char): (r: char)
    ensures !IsAsciiUpper(r)
    ensures !IsAsciiUpper(c) ==> r == c
    ensures IsAsciiUpper(c) ==> r as int == c as int + ('a' as int - 'A' as int)
  {
    if IsAsciiUpper(c) then (c as int - 'A' as int + 'a' as int) as char else c
  }

  /** toLowerCase() on a string of ASCII characters. */
  function ToLowerAscii(s: string): (r: string)
    ensures |r| == |s|
    ensures forall k :: 0 <= k < |s| ==> r[k] == LowerAscii(s[k])
  {
    if s == [] then [] else [LowerAscii(s[0])] + ToLowerAscii(s[1..])
  }

  // ---------------------------------------------------------------------
  // trim()
  // ---------------------------------------------------------------------

  predicate AllWhitespace(s: string) { forall k :: 0 <= k < |s| ==> IsWhitespace(s[k]) }

  /** No whitespace at either end: what trim() produces. */
  predicate Trimmed(s: string) { s == [] || (!IsWhitespace(s[0]) && !IsWhitespace(s[|s| - 1])) }

  /** The length of the whitespace run that starts s. */
  function LeadingWhitespace(s: string): (n: nat)
    ensures n <= |s|
    ensures forall k :: 0 <= k < n ==> IsWhitespace(s[k])
    ensures n < |s| ==> !IsWhitespace(s[n])
  {
    if |s| > 0 && IsWhitespace(s[0]) then 1 + LeadingWhitespace(s[1..]) else 0
  }

  /** The length of the whitespace run that ends s. */
  function TrailingWhitespace(s: string): (n: nat)
    ensures n <= |s|
    ensures forall k :: |s| - n <= k < |s| ==> IsWhitespace(s[k])
    ensures n < |s| ==> !IsWhitespace(s[|s| - 1 - n])
  {
    if |s| > 0 && IsWhitespace(s[|s| - 1]) then 1 + TrailingWhitespace(s[..|s| - 1]) else 0
  }

  /**
   * String.prototype.trim: the infix of s left after removing whitespace
   * from both ends, and nothing else.
   */
  function Trim(s: string): (r: string)
    ensures Trimmed(r)
    ensures LeadingWhitespace(s) + |r| <= |s|
    ensures r == s[LeadingWhitespace(s)..LeadingWhitespace(s) + |r|]
    ensures AllWhitespace(s[..LeadingWhitespace(s)])
    ensures AllWhitespace(s[LeadingWhitespace(s) + |r|..])
  {
    var i := LeadingWhitespace(s);
    if i == |s| then []
    else
      var t := TrailingWhitespace(s);
      s[i..|s| - t]
  }

  /** A string already trimmed is left as it is. */
  lemma {:induction false} TrimTrimmed(s: string)
    requires Trimmed(s)
    ensures Trim(s) == s
  {
    if s != [] {
      assert LeadingWhitespace(s) == 0;
      assert TrailingWhitespace(s) == 0;
    }
  }

  /** trim() is idempotent. */
  lemma TrimIdempotent(s: string)
    ensures Trim(Trim(s)) == Trim(s)
  {
    TrimTrimmed(Trim(s));
  }

  /** Whitespace around a trimmed string is exactly what trim() removes. */
  lemma TrimPadded(w: string, x: string, w': string)
    requires AllWhitespace(w) && AllWhitespace(w') && Trimmed(x)
    ensures Trim(w + x + w') == x
  {
    var s := w + x + w';
    assert forall k :: 0 <= k < |w| ==> s[k] == w[k];
    assert forall k :: |w| <= k < |w| + |x| ==> s[k] == x[k - |w|];
    assert forall k :: |w| + |x| <= k < |s| ==> s[k] == w'[k - |w| - |x|];
    if x == [] {
      assert LeadingWhitespace(s) == |s|;
    } else {
      assert s[|w|] == x[0] && s[|s| - 1 - |w'|] == x[|x| - 1];
      var i, t := LeadingWhitespace(s), TrailingWhitespace(s);
      assert forall k :: 0 <= k < |w| ==> IsWhitespace(s[k]);
      assert forall k :: |s| - |w'| <= k < |s| ==> IsWhitespace(s[k]);
      assert i == |w|;
      assert t == |w'|;
      assert s[|w|..|s| - |w'|] == x;
    }
  }

  // ---------------------------------------------------------------------
  // split() and join()
  // ---------------------------------------------------------------------

  /** The index of the first c in s, or |s| when there is none. */
  function IndexOf(s: string, c: char): (i: nat)
    ensures i <= |s|
    ensures c !in s[..i]
    ensures i < |s| ==> s[i] == c
  {
    if s == [] then 0
    else if s[0] == c then 0
    else
      var i := 1 + IndexOf(s[1..], c);
      assert s[..i] == [s[0]] + s[1..][..i - 1];
      i
  }

  /**
   * String.prototype.split with a one-character separator: the pieces
   * between consecutive occurrences of c. There is always at least one
   * piece ("".split(c) is [""]).
   */
  function Split(s: string, c: char): (parts: seq<string>)
    ensures |parts| >= 1
    ensures forall k :: 0 <= k < |parts| ==> c !in parts[k]
  {
    if s == [] then [""]
    else
      var rest := Split(s[1..], c);
      if s[0] == c then [""] + rest
      else [[s[0]] + rest[0]] + rest[1..]
  }

  /** Array.prototype.join: the parts with sep between consecutive ones. */
  function Join(parts: seq<string>, sep: string): string
  {
    if |parts| == 0 then ""
    else if |parts| == 1 then parts[0]
    else parts[0] + sep + Join(parts[1..], sep)
  }

  /** Joining the pieces of a split with the separator gives back the string. */
  lemma {:induction false} JoinSplit(s: string, c: char)
    ensures Join(Split(s, c), [c]) == s
  {
    if s != [] {
      var rest := Split(s[1..], c);
      JoinSplit(s[1..], c);
      if s[0] == c {
        assert Join([""] + rest, [c]) == "" + [c] + Join(rest, [c]);
      } else if |rest| > 1 {
        var parts := [[s[0]] + rest[0]] + rest[1..];
        assert parts[1..] == rest[1..];
        assert Join(rest, [c]) == rest[0] + [c] + Join(rest[1..], [c]);
      }
    }
  }

  /** A string without the separator is one piece. */
  lemma {:induction false} SplitWithout(s: string, c: char)
    requires c !in s
    ensures Split(s, c) == [s]
  {
    if s != [] {
      SplitWithout(s[1..], c);
      assert [s[0]] + s[1..] == s;
    }
  }

  /** Text without the separator in front of s joins the first piece. */
  lemma {:induction false} SplitPrepend(x: string, s: string, c: char)
    requires c !in x
    ensures Split(x + s, c) == [x + Split(s, c)[0]] + Split(s, c)[1..]
  {
    if x == [] {
      assert x + s == s;
      assert x + Split(s, c)[0] == Split(s, c)[0];
      assert Split(s, c) == [Split(s, c)[0]] + Split(s, c)[1..];
    } else {
      var pieces := Split(s, c);
      var rest := Split(x[1..] + s, c);
      SplitPrepend(x[1..], s, c);
      assert rest[0] == x[1..] + pieces[0] && rest[1..] == pieces[1..];
      assert (x + s)[0] == x[0] && (x + s)[1..] == x[1..] + s;
      assert [x[0]] + (x[1..] + pieces[0]) == x + pieces[0];
    }
  }

  /** The first separator ends the first piece. */
  lemma SplitAtSeparator(a: string, b: string, c: char)
    requires c !in a
    ensures Split(a + [c] + b, c) == [a] + Split(b, c)
  {
    var cb := [c] + b;
    assert cb[1..] == b;
    assert Split(cb, c) == [""] + Split(b, c);
    SplitPrepend(a, cb, c);
    assert a + [c] + b == a + cb;
    assert a + "" == a;
  }

  /** The first piece of a split is the text before the first separator. */
  lemma {:induction false} SplitFirst(s: string, c: char)
    ensures Split(s, c)[0] == s[..IndexOf(s, c)]
  {
    var i := IndexOf(s, c);
    if i == |s| {
      SplitWithout(s, c);
    } else {
      assert s == s[..i] + [c] + s[i + 1..];
      SplitAtSeparator(s[..i], s[i + 1..], c);
    }
  }

  /** There is a second piece exactly when s holds c; it ends at the next separator. */
  lemma SplitSecond(s: string, c: char)
    ensures var i := IndexOf(s, c);
      && (|Split(s, c)| > 1 <==> i < |s|)
      && (i < |s| ==> Split(s, c)[1] == s[i + 1..][..IndexOf(s[i + 1..], c)])
  {
    var i := IndexOf(s, c);
    if i == |s| {
      assert s[..i] == s;
      SplitWithout(s, c);
    } else {
      var rest := s[i + 1..];
      assert s == s[..i] + [c] + rest;
      SplitAtSeparator(s[..i], rest, c);
      SplitFirst(rest, c);
    }
  }

  /**
   * Splitting a join whose separator starts with c, on c, gives one piece
   * per part: the first part itself, every later one behind the rest of
   * the separator. For a one-character separator the pieces are the parts.
   */
  lemma {:induction false} SplitJoin(parts: seq<string>, sep: string, c: char)
    requires |parts| > 0 && |sep| > 0 && sep[0] == c && c !in sep[1..]
    requires forall k :: 0 <= k < |parts| ==> c !in parts[k]
    ensures |Split(Join(parts, sep), c)| == |parts|
    ensures Split(Join(parts, sep), c)[0] == parts[0]
    ensures forall k :: 1 <= k < |parts| ==> Split(Join(parts, sep), c)[k] == sep[1..] + parts[k]
  {
    if |parts| == 1 {
      SplitWithout(parts[0], c);
    } else {
      var tail := Join(parts[1..], sep);
      SplitJoin(parts[1..], sep, c);
      var inner := Split(tail, c);
      SplitPrepend(sep[1..], tail, c);
      assert Join(parts, sep) == parts[0] + [c] + (sep[1..] + tail) by {
        assert sep == [c] + sep[1..];
      }
      SplitAtSeparator(parts[0], sep[1..] + tail, c);
      var whole := Split(Join(parts, sep), c);
      assert whole == [parts[0]] + ([sep[1..] + inner[0]] + inner[1..]);
      forall k | 1 <= k < |parts|
        ensures whole[k] == sep[1..] + parts[k]
      {
        if k > 1 {
          assert whole[k] == inner[k - 1];
          assert parts[1..][k - 1] == parts[k];
        }
      }
    }
  }

  /** split undoes join when no part holds the separator. */
  lemma SplitJoinChar(parts: seq<string>, c: char)
    requires |parts| > 0
    requires forall k :: 0 <= k < |parts| ==> c !in parts[k]
    ensures Split(Join(parts, [c]), c) == parts
  {
    SplitJoin(parts, [c], c);
    var r := Split(Join(parts, [c]), c);
    forall k | 1 <= k < |parts| ensures r[k] == parts[k] {
      assert [c][1..] + parts[k] == parts[k];
    }
  }
}
