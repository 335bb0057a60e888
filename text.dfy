/**
 * The Python string operations the parser relies on: whitespace and word classes,
 * `strip`, `upper`, `split`, and the character runs a regular expression consumes.
 * Case conversion, `\w` and digits are the ASCII ones; whitespace is the set that
 * `str.isspace` and the regular expression `\s` accept.
 */
module Text {
  import opened Wrappers

  /** `c.isspace()`, which is also what `\s` matches. */
  predicate IsSpace(c: char) {
    var n := c as int;
    n == 32 || 9 <= n <= 13 || 28 <= n <= 31 || n == 0x85 || n == 0xA0 || n == 0x1680
    || 0x2000 <= n <= 0x200A || n == 0x2028 || n == 0x2029 || n == 0x202F || n == 0x205F
    || n == 0x3000
  }

  /** `\w` restricted to ASCII: letters, digits and the underscore. */
  predicate IsWordChar(c: char) {
    'a' <= c <= 'z' || 'A' <= c <= 'Z' || '0' <= c <= '9' || c == '_'
  }

  predicate IsDigit(c: char) {
    '0' <= c <= '9'
  }

  /** `str.isdigit()`: non-empty and made of digits only. */
  predicate AllDigits(s: string) {
    |s| > 0 && forall i | 0 <= i < |s| :: IsDigit(s[i])
  }

  function ToUpper(c: char): char {
    if 'a' <= c <= 'z' then (c as int - 32) as char else c
  }

  /** `s.upper()`. */
  function Upper(s: string): (r: string)
    ensures |r| == |s| && forall i | 0 <= i < |s| :: r[i] == ToUpper(s[i])
  {
    seq(|s|, i requires 0 <= i < |s| => ToUpper(s[i]))
  }

  /** Upper-casing a sequence distributes over concatenation. */
  lemma UpperAppend(a: string, b: string)
    ensures Upper(a + b) == Upper(a) + Upper(b)
  {
  }

  /** `s` starts with the upper-case literal `lit` when compared case-insensitively:
      what `s.upper().startswith(lit)` and an IGNORECASE literal both test. */
  predicate HasPrefixIgnoringCase(s: string, lit: string) {
    |s| >= |lit| && forall i | 0 <= i < |lit| :: ToUpper(s[i]) == lit[i]
  }

  /** The character-wise comparison is `s.upper().startswith(lit)`. */
  lemma PrefixIgnoringCaseIsUpperPrefix(s: string, lit: string)
    ensures HasPrefixIgnoringCase(s, lit) <==> |s| >= |lit| && Upper(s)[..|lit|] == lit
  {
    if |s| >= |lit| && Upper(s)[..|lit|] == lit {
      forall i | 0 <= i < |lit|
        ensures ToUpper(s[i]) == lit[i]
      {
        assert Upper(s)[..|lit|][i] == lit[i];
      }
    }
  }

  /** `s.lstrip()`. */
  function LStrip(s: string): (r: string)
    ensures |r| <= |s| && r == s[|s| - |r|..]
    ensures |r| > 0 ==> !IsSpace(r[0])
    ensures forall i | 0 <= i < |s| - |r| :: IsSpace(s[i])
    decreases |s|
  {
    if |s| > 0 && IsSpace(s[0]) then LStrip(s[1..]) else s
  }

  /** `s.rstrip()`. */
  function RStrip(s: string): (r: string)
    ensures |r| <= |s| && r == s[..|r|]
    ensures |r| > 0 ==> !IsSpace(r[|r| - 1])
    ensures forall i | |r| <= i < |s| :: IsSpace(s[i])
    decreases |s|
  {
    if |s| > 0 && IsSpace(s[|s| - 1]) then RStrip(s[..|s| - 1]) else s
  }

  /** `s.strip()`. */
  function Strip(s: string): (r: string)
    ensures |r| <= |s|
    ensures |r| > 0 ==> !IsSpace(r[0]) && !IsSpace(r[|r| - 1])
  {
    RStrip(LStrip(s))
  }

  /** What `strip` returns is a contiguous part of `s` with only whitespace cut off around
      it; since its ends are not whitespace, no other part is. */
  lemma StripCutsEnds(s: string)
    ensures |Strip(s)| > 0 ==> !IsSpace(Strip(s)[0]) && !IsSpace(Strip(s)[|Strip(s)| - 1])
    ensures exists a | 0 <= a <= |s| - |Strip(s)| :: CutAt(s, a, Strip(s))
  {
    var l := LStrip(s);
    var a := |s| - |l|;
    LStripCut(s);
    RStripCut(l);
    CutThenCut(s, a, l, RStrip(l));
    assert CutAt(s, a, Strip(s));
  }

  lemma LStripCut(s: string)
    ensures CutAt(s, |s| - |LStrip(s)|, LStrip(s))
  {
  }

  lemma RStripCut(s: string)
    ensures CutAt(s, 0, RStrip(s))
  {
  }

  /** Cutting whitespace off a part that was itself cut out with whitespace around it. */
  lemma CutThenCut(s: string, a: nat, l: string, r: string)
    requires CutAt(s, a, l) && CutAt(l, 0, r)
    ensures CutAt(s, a, r)
  {
    assert r == s[a..a + |r|];
    forall i | a + |r| <= i < |s|
      ensures IsSpace(s[i])
    {
      if i < a + |l| {
        assert s[i] == l[i - a];
      }
    }
  }

  /** `r` is `s` from position `a` on, with only whitespace cut off on either side. */
  predicate CutAt(s: string, a: nat, r: string) {
    && a + |r| <= |s|
    && r == s[a..a + |r|]
    && (forall i | 0 <= i < a :: IsSpace(s[i]))
    && (forall i | a + |r| <= i < |s| :: IsSpace(s[i]))
  }

  /** A string without whitespace at either end is its own strip. */
  lemma StripUnpadded(s: string)
    requires |s| > 0 ==> !IsSpace(s[0]) && !IsSpace(s[|s| - 1])
    ensures Strip(s) == s
  {
  }

  /** `strip` is idempotent. */
  lemma StripIdempotent(s: string)
    ensures Strip(Strip(s)) == Strip(s)
  {
    StripUnpadded(Strip(s));
  }

  /** A non-whitespace character appended survives `lstrip`. */
  lemma {:induction false} LStripAppendNonSpace(s: string, c: char)
    requires !IsSpace(c)
    ensures LStrip(s + [c]) == LStrip(s) + [c]
    decreases |s|
  {
    if |s| > 0 && IsSpace(s[0]) {
      assert (s + [c])[1..] == s[1..] + [c];
      LStripAppendNonSpace(s[1..], c);
    }
  }

  /** `s.rstrip(c)`: every trailing `c` removed. */
  function RStripChar(s: string, c: char): (r: string)
    ensures |r| <= |s| && r == s[..|r|]
    ensures |r| > 0 ==> r[|r| - 1] != c
    ensures forall i | |r| <= i < |s| :: s[i] == c
    decreases |s|
  {
    if |s| > 0 && s[|s| - 1] == c then RStripChar(s[..|s| - 1], c) else s
  }

  /** The length of the longest prefix of `s` made of `\w` characters. */
  function WordRun(s: string): (n: nat)
    ensures n <= |s|
    ensures forall i | 0 <= i < n :: IsWordChar(s[i])
    ensures n < |s| ==> !IsWordChar(s[n])
    decreases |s|
  {
    if |s| > 0 && IsWordChar(s[0]) then 1 + WordRun(s[1..]) else 0
  }

  /** The length of the longest prefix of `s` made of whitespace. */
  function SpaceRun(s: string): (n: nat)
    ensures n <= |s|
    ensures forall i | 0 <= i < n :: IsSpace(s[i])
    ensures n < |s| ==> !IsSpace(s[n])
    decreases |s|
  {
    if |s| > 0 && IsSpace(s[0]) then 1 + SpaceRun(s[1..]) else 0
  }

  /** The length of the longest prefix of `s` made of non-whitespace. */
  function TokenRun(s: string): (n: nat)
    ensures n <= |s|
    ensures forall i | 0 <= i < n :: !IsSpace(s[i])
    ensures n < |s| ==> IsSpace(s[n])
    decreases |s|
  {
    if |s| > 0 && !IsSpace(s[0]) then 1 + TokenRun(s[1..]) else 0
  }

  /** `s.split()`: the maximal runs of non-whitespace, in order. */
  function SplitWhitespace(s: string): (parts: seq<string>)
    ensures forall i | 0 <= i < |parts| :: |parts[i]| > 0 && NoSpace(parts[i])
    decreases |s|
  {
    var t := s[SpaceRun(s)..];
    if |t| == 0 then []
    else
      var n := TokenRun(t);
      assert NoSpace(t[..n]);
      [t[..n]] + SplitWhitespace(t[n..])
  }

  predicate AllSpace(s: string) {
    forall i | 0 <= i < |s| :: IsSpace(s[i])
  }

  predicate NoSpace(s: string) {
    forall i | 0 <= i < |s| :: !IsSpace(s[i])
  }

  /** The words `ws` with the whitespace runs `pads` around and between them:
      `pads[0] + ws[0] + pads[1] + ... + ws[n - 1] + pads[n]`. */
  function Spaced(pads: seq<string>, ws: seq<string>): string
    requires |pads| == |ws| + 1
    decreases |ws|
  {
    if |ws| == 0 then pads[0] else pads[0] + ws[0] + Spaced(pads[1..], ws[1..])
  }

  /** `split()` gives back exactly the words of a text built from non-empty words with
      whitespace around them and at least some whitespace between them. Every string is
      built that way, so this says what `split()` returns for every input. */
  lemma {:induction false} SplitWhitespaceSpaced(pads: seq<string>, ws: seq<string>)
    requires SpacedWords(pads, ws)
    ensures SplitWhitespace(Spaced(pads, ws)) == ws
    decreases |ws|
  {
    if |ws| == 0 {
      SpaceRunOfSpaces(pads[0], "");
      assert pads[0] + "" == pads[0];
    } else {
      SpacedWordsStep(pads, ws);
      SplitWhitespaceSpaced(pads[1..], ws[1..]);
      assert [ws[0]] + ws[1..] == ws;
    }
  }

  /** Whitespace runs `pads` around and between non-empty words `ws` without whitespace;
      every run between two words is non-empty. */
  predicate SpacedWords(pads: seq<string>, ws: seq<string>) {
    && |pads| == |ws| + 1
    && (forall i | 0 <= i < |pads| :: AllSpace(pads[i]))
    && (forall i | 0 < i < |ws| :: |pads[i]| > 0)
    && (forall i | 0 <= i < |ws| :: |ws[i]| > 0 && NoSpace(ws[i]))
  }

  /** The first run and word come off, and the rest is spaced words again. */
  lemma SpacedWordsStep(pads: seq<string>, ws: seq<string>)
    requires SpacedWords(pads, ws) && |ws| > 0
    ensures SpacedWords(pads[1..], ws[1..])
    ensures SplitWhitespace(Spaced(pads, ws)) == [ws[0]] + SplitWhitespace(Spaced(pads[1..], ws[1..]))
  {
    var rest := Spaced(pads[1..], ws[1..]);
    assert SpacedWords(pads[1..], ws[1..]);
    SpacedStart(pads[1..], ws[1..]);
    SplitWhitespaceCons(pads[0], ws[0], rest);
  }

  lemma SplitWhitespaceCons(p: string, w: string, rest: string)
    requires AllSpace(p) && |w| > 0 && NoSpace(w)
    requires |rest| == 0 || IsSpace(rest[0])
    ensures SplitWhitespace(p + w + rest) == [w] + SplitWhitespace(rest)
  {
    var s := p + w + rest;
    TokenRunOfWord(w, rest);
    assert s == p + (w + rest);
    SpaceRunOfSpaces(p, w + rest);
    assert s[|p|..] == w + rest;
    assert (w + rest)[..|w|] == w;
    assert (w + rest)[|w|..] == rest;
  }

  /** A text built by `Spaced` with the requirements above, with a first whitespace run
      that is non-empty whenever a word follows, is empty or starts with whitespace. */
  lemma SpacedStart(pads: seq<string>, ws: seq<string>)
    requires |pads| == |ws| + 1
    requires forall i | 0 <= i < |pads| :: AllSpace(pads[i])
    requires |ws| > 0 ==> |pads[0]| > 0
    ensures |Spaced(pads, ws)| == 0 || IsSpace(Spaced(pads, ws)[0])
  {
  }

  lemma {:induction false} SpaceRunOfSpaces(p: string, q: string)
    requires AllSpace(p)
    requires |q| == 0 || !IsSpace(q[0])
    ensures SpaceRun(p + q) == |p|
    decreases |p|
  {
    if |p| > 0 {
      assert (p + q)[1..] == p[1..] + q;
      SpaceRunOfSpaces(p[1..], q);
    }
  }

  lemma {:induction false} TokenRunOfWord(w: string, q: string)
    requires NoSpace(w)
    requires |q| == 0 || IsSpace(q[0])
    ensures TokenRun(w + q) == |w|
    decreases |w|
  {
    if |w| > 0 {
      assert (w + q)[1..] == w[1..] + q;
      TokenRunOfWord(w[1..], q);
    }
  }

  /** The position of the first `c` in `s`. */
  function IndexOf(s: string, c: char): (r: Option<nat>)
    ensures r.None? <==> c !in s
    ensures r.Some? ==> r.value < |s| && s[r.value] == c && c !in s[..r.value]
  {
    if |s| == 0 then None
    else if s[0] == c then Some(0)
    else match IndexOf(s[1..], c)
      case None => None
      case Some(i) => assert s[..i + 1] == [s[0]] + s[1..][..i]; Some(i + 1)
  }

  /** The position of the last `c` in `s`. */
  function LastIndexOf(s: string, c: char): (r: Option<nat>)
    ensures r.None? <==> c !in s
    ensures r.Some? ==> r.value < |s| && s[r.value] == c && c !in s[r.value + 1..]
    decreases |s|
  {
    if |s| == 0 then None
    else if s[|s| - 1] == c then Some(|s| - 1)
    else
      var r := LastIndexOf(s[..|s| - 1], c);
      if r.Some? then assert s[r.value + 1..] == s[..|s| - 1][r.value + 1..] + [s[|s| - 1]]; r
      else r
  }

  /** `s.split(c)`: the pieces between every occurrence of `c`, always at least one;
      joined with `c` they give `s` back. */
  function SplitOn(s: string, c: char): (parts: seq<string>)
    ensures |parts| >= 1
    ensures forall i | 0 <= i < |parts| :: c !in parts[i]
    ensures JoinWith(parts, c) == s
    decreases |s|
  {
    match IndexOf(s, c)
    case None => [s]
    case Some(i) =>
      var rest := SplitOn(s[i + 1..], c);
      assert s == s[..i] + [c] + s[i + 1..];
      assert ([s[..i]] + rest)[1..] == rest;
      [s[..i]] + rest
  }

  /** `c.join(parts)`. */
  function JoinWith(parts: seq<string>, c: char): string
    requires |parts| >= 1
    decreases |parts|
  {
    if |parts| == 1 then parts[0] else parts[0] + [c] + JoinWith(parts[1..], c)
  }

  /** Splitting text without the separator gives the text itself. */
  lemma SplitOnAbsent(s: string, c: char)
    requires c !in s
    ensures SplitOn(s, c) == [s]
  {
  }

  /** `[p.strip() for p in parts]`. */
  function StripAll(parts: seq<string>): (r: seq<string>)
    ensures |r| == |parts| && forall i | 0 <= i < |parts| :: r[i] == Strip(parts[i])
  {
    seq(|parts|, i requires 0 <= i < |parts| => Strip(parts[i]))
  }

  /** `"!=" in s`. */
  predicate ContainsNotEqual(s: string)
    decreases |s|
  {
    |s| >= 2 && ((s[0] == '!' && s[1] == '=') || ContainsNotEqual(s[1..]))
  }

  /** Text containing `!=` contains `=`. */
  lemma {:induction false} NotEqualContainsEqual(s: string)
    requires ContainsNotEqual(s)
    ensures '=' in s
    decreases |s|
  {
    if s[0] == '!' && s[1] == '=' {
      assert s[1] == '=';
    } else {
      NotEqualContainsEqual(s[1..]);
      var j :| 0 <= j < |s| - 1 && s[1..][j] == '=';
      assert s[j + 1] == '=';
    }
  }
}
