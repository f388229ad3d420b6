/**
 * The parts of Python's `str` semantics that the workflow relies on:
 * `isspace`, `strip`, `split()`, `split(sep)`, `sep.join`, `splitlines`,
 * the substring test `sub in s`, `endswith`, `os.path.basename` and `lower`.
 * Characters are Unicode scalar values, compared by code point, as in Python.
 */
module PyText {

  /** The characters for which Python's `str.isspace()` holds. */
  predicate IsSpace(c: char) {
    var n := c as int;
    (9 <= n <= 13) || (28 <= n <= 32) || n == 0x85 || n == 0xA0 || n == 0x1680
    || (0x2000 <= n <= 0x200A) || n == 0x2028 || n == 0x2029 || n == 0x202F
    || n == 0x205F || n == 0x3000
  }

  /** The line boundaries recognised by `str.splitlines()` (`"\r\n"` is handled as one). */
  predicate IsLineBreak(c: char) {
    var n := c as int;
    (10 <= n <= 13) || (28 <= n <= 30) || n == 0x85 || n == 0x2028 || n == 0x2029
  }

  predicate NoSpace(w: string) {
    forall i :: 0 <= i < |w| ==> !IsSpace(w[i])
  }

  predicate NoLineBreak(w: string) {
    forall i :: 0 <= i < |w| ==> !IsLineBreak(w[i])
  }

  /** `sub in s` */
  predicate Contains(s: string, sub: string)
    decreases |s|
  {
    |sub| <= |s| && (s[..|sub|] == sub || Contains(s[1..], sub))
  }

  /** `s.endswith(suffix)` */
  predicate EndsWith(s: string, suffix: string) {
    |suffix| <= |s| && s[|s| - |suffix|..] == suffix
  }

  predicate AllSpace(s: string) {
    forall i :: 0 <= i < |s| ==> IsSpace(s[i])
  }

  /** `s.lstrip()` */
  function TrimLeft(s: string): (r: string)
    ensures |r| <= |s|
    ensures r == [] || !IsSpace(r[0])
    decreases |s|
  {
    if |s| > 0 && IsSpace(s[0]) then TrimLeft(s[1..]) else s
  }

  /** `lstrip` drops a whitespace-only prefix and keeps the rest. */
  lemma {:induction false} TrimLeftMeaning(s: string)
    ensures TrimLeft(s) == s[|s| - |TrimLeft(s)|..]
    ensures AllSpace(s[..|s| - |TrimLeft(s)|])
    decreases |s|
  {
    if |s| > 0 && IsSpace(s[0]) {
      TrimLeftMeaning(s[1..]);
      var n := |s| - |TrimLeft(s)|;
      assert s[1..][..n - 1] == s[1..n];
      assert forall i :: 0 < i < n ==> s[..n][i] == s[1..][..n - 1][i - 1];
    }
  }

  /** `s.rstrip()` */
  function TrimRight(s: string): (r: string)
    ensures |r| <= |s|
    ensures r == [] || !IsSpace(r[|r| - 1])
    decreases |s|
  {
    if |s| > 0 && IsSpace(s[|s| - 1]) then TrimRight(s[..|s| - 1]) else s
  }

  /** `rstrip` drops a whitespace-only suffix and keeps the rest. */
  lemma {:induction false} TrimRightMeaning(s: string)
    ensures TrimRight(s) == s[..|TrimRight(s)|]
    ensures AllSpace(s[|TrimRight(s)|..])
    decreases |s|
  {
    if |s| > 0 && IsSpace(s[|s| - 1]) {
      var init := s[..|s| - 1];
      TrimRightMeaning(init);
      var n := |TrimRight(s)|;
      assert init[..n] == s[..n];
      assert forall j :: 0 <= j < |s| - 1 - n ==> s[n..][j] == init[n..][j];
    }
  }

  /** `r` is `s` with the whitespace-only prefix `s[..i]` and a whitespace-only suffix cut off. */
  predicate PaddedBy(s: string, i: int, r: string) {
    0 <= i <= |s| - |r| && r == s[i..i + |r|] && AllSpace(s[..i]) && AllSpace(s[i + |r|..])
  }

  /** `s.strip()` */
  function Strip(s: string): (r: string)
    ensures r == [] || (!IsSpace(r[0]) && !IsSpace(r[|r| - 1]))
  {
    var t := TrimLeft(s);
    TrimRightMeaning(t);
    TrimRight(t)
  }

  /** Stripping drops leading and trailing whitespace and nothing else. */
  lemma StripPadded(s: string)
    ensures exists i :: PaddedBy(s, i, Strip(s))
  {
    var t := TrimLeft(s);
    TrimLeftMeaning(s);
    TrimRightMeaning(t);
    var i, r := |s| - |t|, Strip(s);
    assert r == t[..|r|];
    assert s[i + |r|..] == t[|r|..];
    assert PaddedBy(s, i, r);
  }

  /** Stripping is idempotent. */
  lemma StripIdempotent(s: string)
    ensures Strip(Strip(s)) == Strip(s)
  {
    var r := Strip(s);
    assert TrimLeft(r) == r;
    assert TrimRight(r) == r;
  }

  /** The longest prefix of `s` free of whitespace. */
  function Word(s: string): (w: string)
    ensures |w| <= |s| && w == s[..|w|]
    ensures NoSpace(w)
    ensures |w| == |s| || IsSpace(s[|w|])
    ensures |s| > 0 && !IsSpace(s[0]) ==> |w| > 0
    decreases |s|
  {
    if |s| == 0 || IsSpace(s[0]) then [] else [s[0]] + Word(s[1..])
  }

  /** `s.split()`: the maximal runs of non-whitespace characters, in order. */
  function Tokens(s: string): (ts: seq<string>)
    ensures forall k :: 0 <= k < |ts| ==> |ts[k]| > 0 && NoSpace(ts[k])
    decreases |s|
  {
    var t := TrimLeft(s);
    if |t| == 0 then []
    else
      var w := Word(t);
      assert |w| > 0;
      var rest := Tokens(t[|w|..]);
      PrependWord(w, rest);
      [w] + rest
  }

  /** Words stay words when one more is put in front. */
  lemma PrependWord(w: string, rest: seq<string>)
    requires |w| > 0 && NoSpace(w)
    requires forall k :: 0 <= k < |rest| ==> |rest[k]| > 0 && NoSpace(rest[k])
    ensures forall k :: 0 <= k < |[w] + rest| ==> |([w] + rest)[k]| > 0 && NoSpace(([w] + rest)[k])
  {
    var r := [w] + rest;
    forall k | 0 <= k < |r|
      ensures |r[k]| > 0 && NoSpace(r[k])
    {
      if k > 0 {
        assert r[k] == rest[k - 1];
      }
    }
  }

  /** A string with a non-whitespace character has at least one token. */
  lemma TokensNonEmpty(s: string, i: nat)
    requires i < |s| && !IsSpace(s[i])
    ensures |Tokens(s)| > 0
  {
    var t := TrimLeft(s);
    TrimLeftMeaning(s);
    assert forall j :: 0 <= j < |s| - |t| ==> s[..|s| - |t|][j] == s[j];
    assert |s| - |t| <= i;
  }

  /** `gaps[0] + ts[0] + gaps[1] + ... + ts[n - 1] + gaps[n]`: words laid out between runs of text. */
  function Interleave(gaps: seq<string>, ts: seq<string>): string
    requires |gaps| == |ts| + 1
    decreases |ts|
  {
    if |ts| == 0 then gaps[0] else gaps[0] + ts[0] + Interleave(gaps[1..], ts[1..])
  }

  /** Every gap is whitespace, and the gaps between two words are not empty. */
  predicate Spacing(gaps: seq<string>, ts: seq<string>) {
    && |gaps| == |ts| + 1
    && (forall i :: 0 <= i < |gaps| ==> AllSpace(gaps[i]))
    && (forall i :: 0 < i < |ts| ==> |gaps[i]| > 0)
  }

  /** Every word is non-empty and free of whitespace. */
  predicate Words(ts: seq<string>) {
    forall k :: 0 <= k < |ts| ==> |ts[k]| > 0 && NoSpace(ts[k])
  }

  /** The whitespace runs around the tokens of `s`: before the first, between, after the last. */
  function Gaps(s: string): (gaps: seq<string>)
    ensures |gaps| == |Tokens(s)| + 1
    decreases |s|
  {
    var t := TrimLeft(s);
    if |t| == 0 then [s]
    else
      var w := Word(t);
      [s[..|s| - |t|]] + Gaps(t[|w|..])
  }

  /** Leading whitespace does not change what `lstrip` leaves. */
  lemma {:induction false} TrimLeftSkipsSpace(g: string, x: string)
    requires AllSpace(g)
    ensures TrimLeft(g + x) == TrimLeft(x)
    decreases |g|
  {
    if |g| > 0 {
      assert (g + x)[1..] == g[1..] + x;
      TrimLeftSkipsSpace(g[1..], x);
    } else {
      assert g + x == x;
    }
  }

  /** A word followed by the end of the text or by whitespace is the leading word. */
  lemma {:induction false} WordBeforeSpace(t: string, rest: string)
    requires NoSpace(t) && (rest == [] || IsSpace(rest[0]))
    ensures Word(t + rest) == t
    decreases |t|
  {
    if |t| > 0 {
      assert (t + rest)[1..] == t[1..] + rest;
      WordBeforeSpace(t[1..], rest);
    } else {
      assert t + rest == rest;
    }
  }

  /** One more word in front, after a whitespace run, keeps a layout well spaced. */
  lemma SpacingCons(g: string, w: string, gaps: seq<string>, ts: seq<string>)
    requires Spacing(gaps, ts) && AllSpace(g) && (|ts| > 0 ==> |gaps[0]| > 0)
    ensures Spacing([g] + gaps, [w] + ts)
    ensures Interleave([g] + gaps, [w] + ts) == g + w + Interleave(gaps, ts)
  {
    assert ([g] + gaps)[1..] == gaps && ([w] + ts)[1..] == ts;
    var gs := [g] + gaps;
    assert forall i :: 0 < i < |gs| ==> gs[i] == gaps[i - 1];
  }

  /** Text with a token yields its first token and then the tokens of what follows. */
  lemma FirstToken(s: string)
    requires |TrimLeft(s)| > 0
    ensures var t := TrimLeft(s); var rest := t[|Word(t)|..];
      && Tokens(s) == [Word(t)] + Tokens(rest)
      && Gaps(s) == [s[..|s| - |t|]] + Gaps(rest)
  {
  }

  /** A text is its leading word followed by the rest. */
  lemma WordThenRest(t: string, w: string)
    requires w == Word(t)
    ensures t == w + t[|w|..]
  {
  }

  /** A text is what `lstrip` dropped followed by what it kept. */
  lemma DroppedThenKept(s: string, t: string)
    requires t == TrimLeft(s)
    ensures s == s[..|s| - |t|] + t
  {
    TrimLeftMeaning(s);
  }

  /** Text is what `lstrip` dropped, then the leading word, then the rest. */
  lemma FirstTokenParts(s: string, t: string, w: string)
    requires t == TrimLeft(s) && w == Word(t)
    ensures s == s[..|s| - |t|] + w + t[|w|..]
  {
    WordThenRest(t, w);
    DroppedThenKept(s, t);
  }

  /** After a word, the gap before the next token is not empty. */
  lemma GapAfterWord(rest: string)
    requires rest == [] || IsSpace(rest[0])
    ensures |Tokens(rest)| > 0 ==> |Gaps(rest)[0]| > 0
  {
    if |rest| > 0 {
      assert |TrimLeft(rest)| < |rest|;
    }
  }

  /** What `lstrip` drops is whitespace. */
  lemma DroppedIsSpace(s: string, t: string)
    requires t == TrimLeft(s)
    ensures AllSpace(s[..|s| - |t|])
  {
    TrimLeftMeaning(s);
  }

  /** Whitespace-only text has no token and is one gap. */
  lemma NoTokens(s: string)
    requires |TrimLeft(s)| == 0
    ensures Tokens(s) == [] && Gaps(s) == [s] && AllSpace(s)
  {
    DroppedIsSpace(s, TrimLeft(s));
    assert s[..|s|] == s;
  }

  /** `s.split()` cuts `s` into its tokens, in order: `s` is the tokens separated by
      non-empty whitespace runs, with a whitespace run (possibly empty) at each end. */
  lemma {:induction false} TokensLayout(s: string)
    ensures Spacing(Gaps(s), Tokens(s)) && Interleave(Gaps(s), Tokens(s)) == s
    decreases |s|
  {
    var t := TrimLeft(s);
    if |t| == 0 {
      NoTokens(s);
    } else {
      var w := Word(t);
      var rest := t[|w|..];
      DroppedIsSpace(s, t);
      FirstToken(s);
      FirstTokenParts(s, t, w);
      assert rest == [] || rest[0] == t[|w|];
      GapAfterWord(rest);
      TokensLayout(rest);
      SpacingCons(s[..|s| - |t|], w, Gaps(rest), Tokens(rest));
    }
  }

  /** A layout starts with its first gap. */
  lemma StartsWithGap(gaps: seq<string>, ts: seq<string>)
    requires |gaps| == |ts| + 1
    ensures |gaps[0]| <= |Interleave(gaps, ts)| && Interleave(gaps, ts)[..|gaps[0]|] == gaps[0]
  {
  }

  /** A word between a whitespace run and whitespace (or the end) is the first token. */
  lemma TokensAfterSpace(g: string, w: string, rest: string)
    requires AllSpace(g) && |w| > 0 && NoSpace(w) && (rest == [] || IsSpace(rest[0]))
    ensures Tokens(g + w + rest) == [w] + Tokens(rest)
  {
    var s := g + w + rest;
    assert s == g + (w + rest);
    TrimLeftSkipsSpace(g, w + rest);
    assert (w + rest)[0] == w[0];
    WordBeforeSpace(w, rest);
    assert (w + rest)[|w|..] == rest;
    FirstToken(s);
  }

  /** Conversely, laying words out between whitespace runs and splitting gives the words
      back: the tokens of `s` are the only words that lay out to `s`. */
  lemma {:induction false} TokensOfLayout(gaps: seq<string>, ts: seq<string>)
    requires Spacing(gaps, ts) && Words(ts)
    ensures Tokens(Interleave(gaps, ts)) == ts
    decreases |ts|
  {
    if |ts| == 0 {
      TrimLeftSkipsSpace(gaps[0], "");
      assert gaps[0] + "" == gaps[0];
    } else {
      var rest := Interleave(gaps[1..], ts[1..]);
      assert Spacing(gaps[1..], ts[1..]) && Words(ts[1..]) by {
        assert forall i :: 0 <= i < |gaps| - 1 ==> gaps[1..][i] == gaps[i + 1];
        assert forall i :: 0 <= i < |ts| - 1 ==> ts[1..][i] == ts[i + 1];
      }
      TokensOfLayout(gaps[1..], ts[1..]);
      StartsWithGap(gaps[1..], ts[1..]);
      if |ts| > 1 {
        assert IsSpace(rest[0]) by {
          assert |gaps[1]| > 0 && AllSpace(gaps[1]) && rest[0] == gaps[1][0];
        }
      } else {
        assert rest == gaps[1];
      }
      TokensAfterSpace(gaps[0], ts[0], rest);
    }
  }

  /** The position of the first `c` in `s`. */
  function IndexOf(s: string, c: char): (i: nat)
    requires c in s
    ensures i < |s| && s[i] == c && c !in s[..i]
  {
    if s[0] == c then 0
    else
      var j := IndexOf(s[1..], c);
      assert s[..j + 1] == [s[0]] + s[1..][..j];
      1 + j
  }

  /** `IndexOf` finds the separator placed after a separator-free prefix. */
  lemma IndexOfAfter(a: string, c: char, b: string)
    requires c !in a
    ensures IndexOf(a + [c] + b, c) == |a|
  {
    var s := a + [c] + b;
    var i := IndexOf(s, c);
    assert forall j :: 0 <= j < i ==> s[..i][j] == s[j];
    assert forall j :: 0 <= j < |a| ==> s[j] == a[j];
    assert s[|a|] == c;
  }

  /** `s.split(c)` for a one-character separator `c`. */
  function Split(s: string, c: char): (parts: seq<string>)
    ensures |parts| >= 1
    ensures forall k :: 0 <= k < |parts| ==> c !in parts[k]
    decreases |s|
  {
    if c !in s then [s]
    else
      var i := IndexOf(s, c);
      [s[..i]] + Split(s[i + 1..], c)
  }

  /** `sep.join(parts)` */
  function Join(parts: seq<string>, sep: string): string
    decreases |parts|
  {
    if |parts| == 0 then ""
    else if |parts| == 1 then parts[0]
    else parts[0] + sep + Join(parts[1..], sep)
  }

  /** Splitting at the separator pieces `a` and `c + b` apart. */
  lemma SplitAfter(a: string, c: char, b: string)
    requires c !in a
    ensures Split(a + [c] + b, c) == [a] + Split(b, c)
  {
    var s := a + [c] + b;
    IndexOfAfter(a, c, b);
    assert s[..|a|] == a;
    assert s[|a| + 1..] == b;
  }

  /** Joining the pieces of a split with the separator restores the text. */
  lemma {:induction false} JoinSplit(s: string, c: char)
    ensures Join(Split(s, c), [c]) == s
    decreases |s|
  {
    if c in s {
      var i := IndexOf(s, c);
      var rest := Split(s[i + 1..], c);
      JoinSplit(s[i + 1..], c);
      assert Split(s, c)[1..] == rest;
      assert s == s[..i] + [c] + s[i + 1..];
    }
  }

  /** Splitting a join of separator-free pieces gives the pieces back. */
  lemma {:induction false} SplitJoin(parts: seq<string>, c: char)
    requires |parts| >= 1
    requires forall k :: 0 <= k < |parts| ==> c !in parts[k]
    ensures Split(Join(parts, [c]), c) == parts
    decreases |parts|
  {
    if |parts| > 1 {
      SplitJoin(parts[1..], c);
      SplitAfter(parts[0], c, Join(parts[1..], [c]));
      assert parts == [parts[0]] + parts[1..];
    }
  }

  /** `s.splitlines()`, scanning `s` with the pending line `cur`. */
  function LinesFrom(s: string, cur: string): (lines: seq<string>)
    requires NoLineBreak(cur)
    ensures forall k :: 0 <= k < |lines| ==> NoLineBreak(lines[k])
    decreases |s|
  {
    if |s| == 0 then (if |cur| == 0 then [] else [cur])
    else if s[0] == '\r' && |s| > 1 && s[1] == '\n' then [cur] + LinesFrom(s[2..], "")
    else if IsLineBreak(s[0]) then [cur] + LinesFrom(s[1..], "")
    else LinesFrom(s[1..], cur + [s[0]])
  }

  /** `s.splitlines()`: unlike `split("\n")`, it knows every Unicode line boundary and
      yields no trailing empty line. */
  function SplitLines(s: string): (lines: seq<string>)
    ensures forall k :: 0 <= k < |lines| ==> NoLineBreak(lines[k])
  {
    LinesFrom(s, "")
  }

  /** A line boundary as `splitlines()` consumes it: `"\r\n"` or one break character. */
  predicate IsTerminator(e: string) {
    e == "\r\n" || (|e| == 1 && IsLineBreak(e[0]))
  }

  /** `lines[0] + ends[0] + lines[1] + ends[1] + ...` */
  function Concat(lines: seq<string>, ends: seq<string>): string
    requires |lines| == |ends|
    decreases |lines|
  {
    if |lines| == 0 then "" else lines[0] + ends[0] + Concat(lines[1..], ends[1..])
  }

  /** Each line is break-free and ended by a boundary, except that the last line may run to
      the end of the text when it is not empty; and a lone `'\r'` is never followed by an
      empty line ended by `'\n'` (the two would be one `"\r\n"` boundary). */
  predicate Framed(lines: seq<string>, ends: seq<string>) {
    && |lines| == |ends|
    && (forall i :: 0 <= i < |lines| ==> NoLineBreak(lines[i]))
    && (forall i :: 0 <= i < |lines| ==>
          IsTerminator(ends[i]) || (i == |lines| - 1 && ends[i] == [] && lines[i] != []))
    && (forall i :: 0 <= i < |lines| - 1 && ends[i] == "\r" && lines[i + 1] == [] ==>
          ends[i + 1] != "\n")
  }

  /** The boundaries that `LinesFrom(s, cur)` consumes, one per line it yields. */
  function Ends(s: string, cur: string): seq<string>
    decreases |s|
  {
    if |s| == 0 then (if |cur| == 0 then [] else [""])
    else if s[0] == '\r' && |s| > 1 && s[1] == '\n' then ["\r\n"] + Ends(s[2..], "")
    else if IsLineBreak(s[0]) then [[s[0]]] + Ends(s[1..], "")
    else Ends(s[1..], cur + [s[0]])
  }

  /** One more line in front, ended by a boundary, keeps a layout framed. */
  lemma FramedCons(l: string, e: string, lines: seq<string>, ends: seq<string>)
    requires Framed(lines, ends) && NoLineBreak(l) && IsTerminator(e)
    requires e == "\r" && |lines| > 0 && lines[0] == [] ==> ends[0] != "\n"
    ensures Framed([l] + lines, [e] + ends)
    ensures Concat([l] + lines, [e] + ends) == l + e + Concat(lines, ends)
  {
    var ls, es := [l] + lines, [e] + ends;
    assert ls[1..] == lines && es[1..] == ends;
    assert forall i :: 0 < i < |ls| ==> ls[i] == lines[i - 1] && es[i] == ends[i - 1];
  }

  /** A framed text starts with `'\n'` only when its first line is empty and ended by `'\n'`. */
  lemma FramedHead(lines: seq<string>, ends: seq<string>)
    requires Framed(lines, ends) && |lines| > 0
    ensures |Concat(lines, ends)| > 0
    ensures Concat(lines, ends)[0] == '\n' ==> lines[0] == [] && ends[0] == "\n"
  {
    var x := Concat(lines, ends);
    assert x == lines[0] + ends[0] + Concat(lines[1..], ends[1..]);
    if lines[0] != [] {
      assert x[0] == lines[0][0] && !IsLineBreak(lines[0][0]);
    } else {
      assert IsTerminator(ends[0]) && x[0] == ends[0][0];
    }
  }

  /** A boundary of length `k` at the front of `s` yields the pending line `cur`. */
  lemma BoundaryUnfold(s: string, cur: string, k: nat)
    requires NoLineBreak(cur) && (k == 1 || k == 2) && k <= |s|
    requires k == 2 <==> s[0] == '\r' && |s| > 1 && s[1] == '\n'
    requires k == 1 ==> IsLineBreak(s[0])
    ensures LinesFrom(s, cur) == [cur] + LinesFrom(s[k..], "")
    ensures Ends(s, cur) == [s[..k]] + Ends(s[k..], "")
    ensures IsTerminator(s[..k]) && s == s[..k] + s[k..]
    ensures s[..k] == "\r" && |s[k..]| > 0 ==> s[k..][0] != '\n'
  {
    if k == 2 {
      assert s[..k] == "\r\n";
    } else {
      assert s[..k] == [s[0]];
    }
  }

  /** A boundary `e` ends the pending line `cur`; a framed layout of the text after it stays
      framed with that line in front. */
  lemma LayoutAfterBoundary(cur: string, e: string, rest: string, lines: seq<string>, ends: seq<string>)
    requires NoLineBreak(cur) && IsTerminator(e)
    requires e == "\r" && |rest| > 0 ==> rest[0] != '\n'
    requires Framed(lines, ends) && Concat(lines, ends) == rest
    ensures Framed([cur] + lines, [e] + ends)
    ensures Concat([cur] + lines, [e] + ends) == cur + (e + rest)
  {
    if e == "\r" && |lines| > 0 && lines[0] == [] {
      FramedHead(lines, ends);
    }
    FramedCons(cur, e, lines, ends);
  }

  /** `splitlines()` cuts `cur + s` into lines: the layout it yields is framed and spells the
      text out again. */
  lemma {:induction false} LinesFromLayout(s: string, cur: string)
    requires NoLineBreak(cur)
    ensures Framed(LinesFrom(s, cur), Ends(s, cur))
    ensures Concat(LinesFrom(s, cur), Ends(s, cur)) == cur + s
    decreases |s|
  {
    if |s| == 0 {
      assert cur + s == cur;
      if |cur| > 0 {
        assert Concat([cur], [""]) == cur + "" + Concat([], []);
      }
    } else if IsLineBreak(s[0]) {
      var k := if s[0] == '\r' && |s| > 1 && s[1] == '\n' then 2 else 1;
      var e, rest := s[..k], s[k..];
      BoundaryUnfold(s, cur, k);
      LinesFromLayout(rest, "");
      assert "" + rest == rest;
      LayoutAfterBoundary(cur, e, rest, LinesFrom(rest, ""), Ends(rest, ""));
    } else {
      LinesFromLayout(s[1..], cur + [s[0]]);
      assert cur + [s[0]] + s[1..] == cur + s;
    }
  }

  /** `s.splitlines()` is a framed layout of `s`: break-free lines, each ended by the boundary
      that follows it in `s`, a final line without boundary only when `s` does not end in one. */
  lemma SplitLinesLayout(s: string)
    ensures Framed(SplitLines(s), Ends(s, "")) && Concat(SplitLines(s), Ends(s, "")) == s
  {
    LinesFromLayout(s, "");
    assert "" + s == s;
  }

  /** Break-free text read into the pending line is carried along. */
  lemma {:induction false} LinesFromCarry(x: string, y: string, cur: string)
    requires NoLineBreak(cur) && NoLineBreak(x)
    ensures LinesFrom(x + y, cur) == LinesFrom(y, cur + x)
    decreases |x|
  {
    if |x| == 0 {
      assert x + y == y && cur + x == cur;
    } else {
      assert (x + y)[0] == x[0] && (x + y)[1..] == x[1..] + y;
      assert cur + x == cur + [x[0]] + x[1..];
      LinesFromCarry(x[1..], y, cur + [x[0]]);
    }
  }

  /** The pending line `l` ends at the boundary `e` (or at the end of the text when `e` is
      empty), and the lines of `rest` follow. */
  lemma EndLine(l: string, e: string, rest: string)
    requires NoLineBreak(l)
    requires IsTerminator(e) || (e == [] && rest == [] && l != [])
    requires e == "\r" && |rest| > 0 ==> rest[0] != '\n'
    ensures LinesFrom(e + rest, l) == [l] + SplitLines(rest)
  {
    if e == [] {
      assert e + rest == [];
    } else if e == "\r\n" {
      assert (e + rest)[2..] == rest;
    } else {
      assert (e + rest)[1..] == rest;
    }
  }

  /** Conversely, `splitlines()` of a framed layout gives its lines back: the lines of a text
      are the only framed lines that spell it out. */
  lemma {:induction false} SplitLinesOfLayout(lines: seq<string>, ends: seq<string>)
    requires Framed(lines, ends)
    ensures SplitLines(Concat(lines, ends)) == lines
    decreases |lines|
  {
    if |lines| > 0 {
      var l, e := lines[0], ends[0];
      var ls, es := lines[1..], ends[1..];
      var rest := Concat(ls, es);
      assert Framed(ls, es) by {
        assert forall i :: 0 <= i < |ls| ==> ls[i] == lines[i + 1] && es[i] == ends[i + 1];
      }
      SplitLinesOfLayout(ls, es);
      assert Concat(lines, ends) == l + (e + rest);
      LinesFromCarry(l, e + rest, "");
      assert "" + l == l;
      if |ls| > 0 {
        FramedHead(ls, es);
      }
      EndLine(l, e, rest);
      assert lines == [l] + ls;
    }
  }

  /** The only line boundary in `s` is `'\n'`. */
  predicate OnlyNewlines(s: string) {
    forall i :: 0 <= i < |s| ==> IsLineBreak(s[i]) ==> s[i] == '\n'
  }

  lemma {:induction false} LinesFromIsSplit(s: string, cur: string)
    requires NoLineBreak(cur) && OnlyNewlines(s)
    requires |cur + s| > 0 && (cur + s)[|cur + s| - 1] != '\n'
    ensures LinesFrom(s, cur) == Split(cur + s, '\n')
    decreases |s|
  {
    if |s| == 0 {
      assert cur + s == cur;
      assert forall i :: 0 <= i < |cur| ==> cur[i] != '\n';
    } else if s[0] == '\n' {
      assert |s| > 1;
      assert forall i :: 0 <= i < |cur| ==> cur[i] != '\n';
      LinesFromIsSplit(s[1..], "");
      assert "" + s[1..] == s[1..];
      assert cur + s == cur + ['\n'] + s[1..];
      SplitAfter(cur, '\n', s[1..]);
    } else {
      assert !IsLineBreak(s[0]);
      LinesFromIsSplit(s[1..], cur + [s[0]]);
      assert cur + [s[0]] + s[1..] == cur + s;
    }
  }

  /** On text whose only line boundary is `'\n'`, that is non-empty and does not end in a
      newline (as any stripped, non-empty text), `splitlines()` and `split("\n")` agree. */
  lemma SplitLinesIsSplit(s: string)
    requires OnlyNewlines(s) && |s| > 0 && s[|s| - 1] != '\n'
    ensures SplitLines(s) == Split(s, '\n')
  {
    LinesFromIsSplit(s, "");
    assert "" + s == s;
  }

  /** `os.path.basename(p)` on a POSIX path: what follows the last `'/'`. */
  function Basename(p: string): (b: string)
    ensures '/' !in b
    ensures EndsWith(p, b)
    ensures b == p || p[|p| - |b| - 1] == '/'
    decreases |p|
  {
    if '/' !in p then p
    else
      var i := IndexOf(p, '/');
      var q := p[i + 1..];
      var b := Basename(q);
      assert q[|q| - |b|..] == p[|p| - |b|..];
      assert q == p[|p| - |q|..];
      b
  }

  /** `c.lower()` on ASCII letters; every other character is kept. */
  function LowerChar(c: char): (d: char)
    ensures 'A' <= c <= 'Z' ==> 'a' <= d <= 'z' && d as int - 'a' as int == c as int - 'A' as int
    ensures !('A' <= c <= 'Z') ==> d == c
  {
    if 'A' <= c <= 'Z' then (c as int + 32) as char else c
  }

  /** `s.lower()`, folding ASCII letters only. */
  function Lower(s: string): (r: string)
    ensures |r| == |s|
    ensures forall i :: 0 <= i < |s| ==> r[i] == LowerChar(s[i])
  {
    seq(|s|, i requires 0 <= i < |s| => LowerChar(s[i]))
  }

  /** `c` and `d` are the same character up to ASCII case. */
  predicate SameLetter(c: char, d: char) {
    c == d || (c as int - d as int == 32 && 'a' <= c <= 'z') || (d as int - c as int == 32 && 'a' <= d <= 'z')
  }

  /** Folding leaves no ASCII capital behind. */
  lemma LowerHasNoCapitals(s: string)
    ensures forall i :: 0 <= i < |Lower(s)| ==> !('A' <= Lower(s)[i] <= 'Z')
  {
  }

  /** Folding twice is folding once. */
  lemma LowerIdempotent(s: string)
    ensures Lower(Lower(s)) == Lower(s)
  {
  }

  /** Two texts fold to the same text exactly when they differ only in ASCII case. */
  lemma LowerCaseBlind(s: string, t: string)
    ensures Lower(s) == Lower(t) <==> |s| == |t| && forall i :: 0 <= i < |s| ==> SameLetter(s[i], t[i])
  {
    if |s| == |t| && forall i :: 0 <= i < |s| ==> SameLetter(s[i], t[i]) {
      forall i | 0 <= i < |s|
        ensures Lower(s)[i] == Lower(t)[i]
      {
        assert SameLetter(s[i], t[i]);
      }
    }
    if Lower(s) == Lower(t) {
      forall i | 0 <= i < |s|
        ensures SameLetter(s[i], t[i])
      {
        assert LowerChar(s[i]) == LowerChar(t[i]);
      }
    }
  }

  /** `d.get(k, default)` */
  function Get(d: map<string, string>, k: string, default: string): (v: string)
    ensures k in d ==> v == d[k]
    ensures k !in d ==> v == default
  {
    if k in d then d[k] else default
  }
}
