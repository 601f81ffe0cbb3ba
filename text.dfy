/** Text handling the transfer code borrows from Python: white space as
    `str.isspace` sees it, `strip()`, `split(maxsplit=1)`, `startswith`, and
    UTF-8 encoding of `str` into `bytes`. */
module Text {

  newtype byte = x: int | 0 <= x < 256

  /** Python's `str.isspace` for one character (the characters `str.strip()`
      and `str.split()` treat as white space). */
  predicate IsSpace(c: char)
  {
    c == ' ' || '\t' <= c <= '\r' || '\U{1c}' <= c <= '\U{1f}'
    || c == '\U{85}' || c == '\U{a0}' || c == '\U{1680}'
    || '\U{2000}' <= c <= '\U{200a}' || c == '\U{2028}' || c == '\U{2029}'
    || c == '\U{202f}' || c == '\U{205f}' || c == '\U{3000}'
  }

  predicate AllSpace(s: string)
  {
    forall k :: 0 <= k < |s| ==> IsSpace(s[k])
  }

  /** A non-empty run of characters none of which is white space. */
  predicate IsWord(s: string)
  {
    s != [] && forall k :: 0 <= k < |s| ==> !IsSpace(s[k])
  }

  /** Number of white-space characters at the front of `s`. */
  function LeadingSpace(s: string): (n: nat)
    ensures n <= |s|
    ensures AllSpace(s[..n])
    ensures n < |s| ==> !IsSpace(s[n])
  {
    if s == [] || !IsSpace(s[0]) then 0 else 1 + LeadingSpace(s[1..])
  }

  /** Number of white-space characters at the back of `s`. */
  function TrailingSpace(s: string): (n: nat)
    ensures n <= |s|
    ensures AllSpace(s[|s| - n..])
    ensures n < |s| ==> !IsSpace(s[|s| - n - 1])
  {
    if s == [] || !IsSpace(s[|s| - 1]) then 0 else 1 + TrailingSpace(s[..|s| - 1])
  }

  /** Python's `s.lstrip()`. */
  function TrimStart(s: string): string
  {
    s[LeadingSpace(s)..]
  }

  /** Python's `s.rstrip()`. */
  function TrimEnd(s: string): string
  {
    s[..|s| - TrailingSpace(s)]
  }

  /** Python's `s.strip()`: the middle of `s` left once the white space
      at both ends is cut off. */
  function Strip(s: string): (r: string)
    ensures r == [] || (!IsSpace(r[0]) && !IsSpace(r[|r| - 1]))
    ensures LeadingSpace(s) + |r| <= |s|
    ensures r == s[LeadingSpace(s)..LeadingSpace(s) + |r|]
    ensures AllSpace(s[..LeadingSpace(s)]) && AllSpace(s[LeadingSpace(s) + |r|..])
  {
    var t := TrimStart(s);
    var r := TrimEnd(t);
    assert r == [] || r[0] == t[0];
    assert s[LeadingSpace(s) + |r|..] == t[|r|..];
    r
  }

  /** `strip()` leaves nothing exactly when the text is all white space. */
  lemma StripEmpty(s: string)
    ensures Strip(s) == [] <==> AllSpace(s)
  {
    var n := LeadingSpace(s);
    if Strip(s) == [] {
      assert s[..n] == s;
    }
    if AllSpace(s) {
      AllSpaceLeading(s);
    }
  }

  /** Text that neither starts nor ends with white space is its own strip. */
  lemma StripNoop(s: string)
    requires s == [] || (!IsSpace(s[0]) && !IsSpace(s[|s| - 1]))
    ensures Strip(s) == s
  {
    assert LeadingSpace(s) == 0;
    assert TrailingSpace(s) == 0;
  }

  lemma {:induction false} LeadingSpaceAppend(pre: string, s: string)
    requires AllSpace(pre)
    ensures LeadingSpace(pre + s) == |pre| + LeadingSpace(s)
  {
    if pre != [] {
      assert (pre + s)[1..] == pre[1..] + s;
      LeadingSpaceAppend(pre[1..], s);
    } else {
      assert pre + s == s;
    }
  }

  lemma {:induction false} TrailingSpaceAppend(s: string, post: string)
    requires AllSpace(post)
    ensures TrailingSpace(s + post) == TrailingSpace(s) + |post|
  {
    if post != [] {
      assert (s + post)[..|s + post| - 1] == s + post[..|post| - 1];
      TrailingSpaceAppend(s, post[..|post| - 1]);
    } else {
      assert s + post == s;
    }
  }

  /** White space wrapped around text does not survive `strip()`. */
  lemma StripPadded(pre: string, s: string, post: string)
    requires AllSpace(pre) && AllSpace(post)
    ensures Strip(pre + s + post) == Strip(s)
  {
    TrimStartPadded(pre, s + post);
    assert pre + s + post == pre + (s + post);
    if LeadingSpace(s) < |s| {
      LeadingSpaceOfPrefix(s, post);
      assert TrimStart(s + post) == TrimStart(s) + post;
      TrimEndPadded(TrimStart(s), post);
    } else {
      AllSpaceLeadingBack(s);
      assert AllSpace(s + post);
      AllSpaceLeading(s + post);
    }
  }

  lemma TrimStartPadded(pre: string, s: string)
    requires AllSpace(pre)
    ensures TrimStart(pre + s) == TrimStart(s)
  {
    LeadingSpaceAppend(pre, s);
    assert (pre + s)[|pre|..] == s;
  }

  lemma TrimEndPadded(s: string, post: string)
    requires AllSpace(post)
    ensures TrimEnd(s + post) == TrimEnd(s)
  {
    TrailingSpaceAppend(s, post);
    assert (s + post)[..|s|] == s;
  }

  lemma {:induction false} LeadingSpaceOfPrefix(s: string, post: string)
    requires LeadingSpace(s) < |s|
    ensures LeadingSpace(s + post) == LeadingSpace(s)
  {
    if IsSpace(s[0]) {
      assert (s + post)[1..] == s[1..] + post;
      LeadingSpaceOfPrefix(s[1..], post);
    }
  }

  lemma {:induction false} AllSpaceLeading(s: string)
    requires AllSpace(s)
    ensures LeadingSpace(s) == |s|
  {
    if s != [] {
      AllSpaceLeading(s[1..]);
    }
  }

  /** Length of the word at the front of `s`. */
  function WordLength(s: string): (n: nat)
    ensures n <= |s|
    ensures forall k :: 0 <= k < n ==> !IsSpace(s[k])
    ensures n < |s| ==> IsSpace(s[n])
  {
    if s == [] || IsSpace(s[0]) then 0 else 1 + WordLength(s[1..])
  }

  /** Python's `s.split(maxsplit=1)`: the first word, and the rest of the
      text after the white-space run that follows it, if any remains. */
  function SplitOnce(s: string): (parts: seq<string>)
    ensures |parts| <= 2
    ensures parts == [] <==> AllSpace(s)
    ensures |parts| >= 1 ==> IsWord(parts[0])
    ensures |parts| == 2 ==> parts[1] != [] && !IsSpace(parts[1][0])
  {
    var t := TrimStart(s);
    if t == [] then
      AllSpaceLeadingBack(s);
      []
    else
      assert !AllSpace(s) by {
        if AllSpace(s) { AllSpaceLeading(s); }
      }
      var w := t[..WordLength(t)];
      var rest := TrimStart(t[|w|..]);
      if rest == [] then [w] else [w, rest]
  }

  lemma AllSpaceLeadingBack(s: string)
    requires LeadingSpace(s) == |s|
    ensures AllSpace(s)
  {
    assert s[..|s|] == s;
  }

  lemma {:induction false} WordLengthOf(w: string, rest: string)
    requires IsWord(w)
    requires rest == [] || IsSpace(rest[0])
    ensures WordLength(w + rest) == |w|
  {
    assert (w + rest)[1..] == w[1..] + rest;
    if |w| > 1 {
      WordLengthOf(w[1..], rest);
    } else {
      assert w[1..] + rest == rest;
    }
  }

  /** The inverse of writing a word, a white-space gap and a remainder:
      `split(maxsplit=1)` gives back the word and the remainder. */
  lemma SplitOnceOf(w: string, gap: string, rest: string)
    requires IsWord(w) && gap != [] && AllSpace(gap)
    requires rest != [] && !IsSpace(rest[0])
    ensures SplitOnce(w + gap + rest) == [w, rest]
  {
    var s := w + gap + rest;
    assert LeadingSpace(s) == 0;
    assert TrimStart(s) == s;
    assert s == w + (gap + rest);
    WordLengthOf(w, gap + rest);
    assert s[..|w|] == w;
    assert s[|w|..] == gap + rest;
    LeadingSpaceAppend(gap, rest);
    assert LeadingSpace(rest) == 0;
    assert TrimStart(gap + rest) == rest;
  }

  /** A lone word splits into itself. */
  lemma SplitOnceWord(w: string)
    requires IsWord(w)
    ensures SplitOnce(w) == [w]
  {
    assert LeadingSpace(w) == 0;
    assert TrimStart(w) == w;
    WordLengthOf(w, []);
    assert w + [] == w;
    assert w[|w|..] == [];
  }

  /** Python's `s.startswith(prefix)`. */
  predicate StartsWith<T(==)>(s: seq<T>, prefix: seq<T>)
  {
    |prefix| <= |s| && s[..|prefix|] == prefix
  }

  predicate IsAscii(s: string)
  {
    forall k :: 0 <= k < |s| ==> s[k] as int < 0x80
  }

  /** The UTF-8 encoding of one character: one byte for ASCII, otherwise a
      lead byte and one to three continuation bytes. */
  function EncodeChar(c: char): (r: seq<byte>)
    ensures 1 <= |r| <= 4
    ensures |r| == 1 <==> c as int < 0x80
    ensures |r| == 1 ==> r[0] as int == c as int
  {
    var v := c as int;
    if v < 0x80 then [v as byte]
    else if v < 0x800 then [(0xC0 + v / 0x40) as byte, (0x80 + v % 0x40) as byte]
    else if v < 0x1_0000 then
      [(0xE0 + v / 0x1000) as byte, (0x80 + v / 0x40 % 0x40) as byte, (0x80 + v % 0x40) as byte]
    else
      [(0xF0 + v / 0x4_0000) as byte, (0x80 + v / 0x1000 % 0x40) as byte,
       (0x80 + v / 0x40 % 0x40) as byte, (0x80 + v % 0x40) as byte]
  }

  /** Python's `s.encode('utf-8')`. */
  function Utf8(s: string): (r: seq<byte>)
    ensures |r| >= |s|
  {
    if s == [] then [] else EncodeChar(s[0]) + Utf8(s[1..])
  }

  /** Encoding takes one byte per character exactly when the text is ASCII. */
  lemma {:induction false} Utf8Length(s: string)
    ensures |Utf8(s)| == |s| <==> IsAscii(s)
  {
    if s != [] {
      Utf8Length(s[1..]);
      assert IsAscii(s) <==> s[0] as int < 0x80 && IsAscii(s[1..]);
    }
  }

  lemma {:induction false} Utf8Append(a: string, b: string)
    ensures Utf8(a + b) == Utf8(a) + Utf8(b)
  {
    if a == [] {
      assert a + b == b;
    } else {
      assert (a + b)[1..] == a[1..] + b;
      Utf8Append(a[1..], b);
    }
  }

  /** ASCII text encodes to one byte per character, with the same code. */
  lemma {:induction false} Utf8Ascii(s: string)
    requires IsAscii(s)
    ensures |Utf8(s)| == |s|
    ensures forall k :: 0 <= k < |s| ==> Utf8(s)[k] as int == s[k] as int
  {
    if s != [] {
      Utf8Ascii(s[1..]);
    }
  }
}
