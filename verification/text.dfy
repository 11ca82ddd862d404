/** Character classes and the string operations the setup.ini parser uses:
    Python's `\s`, `\S`, `\b` and `str.split()` (find-cyg-roots.py:53-65). */
module Text {

  /** Python's `str.isspace`, which is also the set `\s` matches in a str
      pattern and the set `split()` splits on. */
  predicate IsSpace(c: char) {
    || c == ' '
    || '\t' <= c <= '\r'
    || '\U{1c}' <= c <= '\U{1f}'
    || c == '\U{85}' || c == '\U{a0}' || c == '\U{1680}'
    || '\U{2000}' <= c <= '\U{200a}'
    || c == '\U{2028}' || c == '\U{2029}' || c == '\U{202f}' || c == '\U{205f}' || c == '\U{3000}'
  }

  /** The characters `\b` treats as part of a word, over ASCII. */
  predicate IsWordChar(c: char) {
    'a' <= c <= 'z' || 'A' <= c <= 'Z' || '0' <= c <= '9' || c == '_'
  }

  predicate AllSpace(s: string) {
    forall k :: 0 <= k < |s| ==> IsSpace(s[k])
  }

  predicate NoSpace(s: string) {
    forall k :: 0 <= k < |s| ==> !IsSpace(s[k])
  }

  predicate AllWordChars(s: string) {
    forall k :: 0 <= k < |s| ==> IsWordChar(s[k])
  }

  predicate StartsWith(s: string, prefix: string) {
    |prefix| <= |s| && s[..|prefix|] == prefix
  }

  /** The length of the whitespace run at the start of s (what a greedy
      `\s*` consumes). */
  function SpaceRun(s: string): (n: nat)
    ensures n <= |s| && AllSpace(s[..n])
    ensures n < |s| ==> !IsSpace(s[n])
  {
    if |s| == 0 || !IsSpace(s[0]) then 0 else 1 + SpaceRun(s[1..])
  }

  /** The length of the non-whitespace run at the start of s (what a greedy
      `\S*` consumes). */
  function TokenRun(s: string): (n: nat)
    ensures n <= |s| && NoSpace(s[..n])
    ensures n < |s| ==> IsSpace(s[n])
  {
    if |s| == 0 || IsSpace(s[0]) then 0 else 1 + TokenRun(s[1..])
  }

  /** Python's `s.split()`: the maximal runs of non-whitespace characters,
      in order. */
  function Words(s: string): (ws: seq<string>)
    ensures forall k :: 0 <= k < |ws| ==> |ws[k]| > 0 && NoSpace(ws[k])
    decreases |s|
  {
    var lead := SpaceRun(s);
    if lead == |s| then []
    else
      var rest := s[lead..];
      var n := TokenRun(rest);
      [rest[..n]] + Words(rest[n..])
  }

  /** The words joined by single spaces. */
  function Unwords(ws: seq<string>): string {
    if |ws| == 0 then ""
    else if |ws| == 1 then ws[0]
    else ws[0] + " " + Unwords(ws[1..])
  }

  /** The characters of s that are not whitespace, in order. */
  function Squeeze(s: string): string {
    if |s| == 0 then ""
    else (if IsSpace(s[0]) then "" else [s[0]]) + Squeeze(s[1..])
  }

  function Concat(ws: seq<string>): string {
    if |ws| == 0 then "" else ws[0] + Concat(ws[1..])
  }

  /** w occurs in s at index k with `\b` on both sides. w must start and
      end with a word character for this to be `\b<w>\b`. */
  predicate WordAt(s: string, k: int, w: string) {
    && 0 <= k && k + |w| <= |s|
    && s[k..k + |w|] == w
    && (k == 0 || !IsWordChar(s[k - 1]))
    && (k + |w| == |s| || !IsWordChar(s[k + |w|]))
  }

  /** `\b<w>\b` matches somewhere in s at or after index from. */
  predicate HasWordFrom(s: string, from: nat, w: string) {
    exists k :: from <= k <= |s| && WordAt(s, k, w)
  }

  lemma {:induction false} SpaceRunOfSpaces(sp: string, t: string)
    requires AllSpace(sp) && (|t| == 0 || !IsSpace(t[0]))
    ensures SpaceRun(sp + t) == |sp|
    decreases |sp|
  {
    if |sp| > 0 {
      assert (sp + t)[1..] == sp[1..] + t;
      SpaceRunOfSpaces(sp[1..], t);
    } else {
      assert sp + t == t;
    }
  }

  lemma {:induction false} TokenRunOfToken(w: string, t: string)
    requires NoSpace(w) && (|t| == 0 || IsSpace(t[0]))
    ensures TokenRun(w + t) == |w|
    decreases |w|
  {
    if |w| > 0 {
      assert (w + t)[1..] == w[1..] + t;
      TokenRunOfToken(w[1..], t);
    } else {
      assert w + t == t;
    }
  }

  /** Leading whitespace does not change what `split()` returns. */
  lemma {:induction false} WordsSkipSpaces(sp: string, t: string)
    requires AllSpace(sp)
    ensures Words(sp + t) == Words(t)
    decreases |sp|
  {
    if |sp| > 0 {
      var s := sp + t;
      assert s[1..] == sp[1..] + t;
      WordsSkipSpaces(sp[1..], t);
      assert SpaceRun(s) == 1 + SpaceRun(s[1..]);
      assert s[SpaceRun(s)..] == s[1..][SpaceRun(s[1..])..];
    } else {
      assert sp + t == t;
    }
  }

  /** A word followed by whitespace or nothing is split off whole. */
  lemma WordsOfToken(w: string, t: string)
    requires |w| > 0 && NoSpace(w) && (|t| == 0 || IsSpace(t[0]))
    ensures Words(w + t) == [w] + Words(t)
  {
    var s := w + t;
    SpaceRunOfSpaces("", s);
    assert "" + s == s;
    assert s[0..] == s;
    TokenRunOfToken(w, t);
    assert s[..|w|] == w && s[|w|..] == t;
  }

  /** Splitting words joined by spaces gives the words back. */
  lemma {:induction false} WordsUnwords(ws: seq<string>)
    requires forall k :: 0 <= k < |ws| ==> |ws[k]| > 0 && NoSpace(ws[k])
    ensures Words(Unwords(ws)) == ws
  {
    if |ws| == 1 {
      WordsOfToken(ws[0], "");
      assert ws[0] + "" == ws[0];
    } else if |ws| > 1 {
      var w, rest := ws[0], Unwords(ws[1..]);
      assert Unwords(ws) == w + " " + rest;
      WordsJoin(w, rest);
      WordsUnwords(ws[1..]);
      assert ws == [w] + ws[1..];
    }
  }

  /** A word, a space and a rest split into the word and the rest's words. */
  lemma WordsJoin(w: string, rest: string)
    requires |w| > 0 && NoSpace(w)
    ensures Words(w + " " + rest) == [w] + Words(rest)
  {
    assert w + " " + rest == w + (" " + rest);
    WordsOfToken(w, " " + rest);
    WordsSkipSpaces(" ", rest);
  }

  /** `split()` keeps every non-whitespace character, in order, and no
      other: its words concatenated are s with the whitespace removed. */
  lemma {:induction false} WordsKeepCharacters(s: string)
    ensures Concat(Words(s)) == Squeeze(s)
    decreases |s|
  {
    var lead := SpaceRun(s);
    assert s == s[..lead] + s[lead..];
    SqueezeSpaces(s[..lead], s[lead..]);
    WordsSkipSpaces(s[..lead], s[lead..]);
    if lead < |s| {
      WordsKeepCharactersOfToken(s[lead..]);
    }
  }

  lemma {:induction false} WordsKeepCharactersOfToken(s: string)
    requires |s| > 0 && !IsSpace(s[0])
    ensures Concat(Words(s)) == Squeeze(s)
    decreases |s|, 0
  {
    var n := TokenRun(s);
    assert s == s[..n] + s[n..];
    SqueezeToken(s[..n], s[n..]);
    WordsOfToken(s[..n], s[n..]);
    WordsKeepCharacters(s[n..]);
    ConcatCons(s[..n], Words(s[n..]));
  }

  lemma ConcatCons(w: string, ws: seq<string>)
    ensures Concat([w] + ws) == w + Concat(ws)
  {
    assert ([w] + ws)[1..] == ws;
  }

  lemma {:induction false} SqueezeSpaces(sp: string, t: string)
    requires AllSpace(sp)
    ensures Squeeze(sp + t) == Squeeze(t)
    decreases |sp|
  {
    if |sp| > 0 {
      assert (sp + t)[1..] == sp[1..] + t;
      SqueezeSpaces(sp[1..], t);
    } else {
      assert sp + t == t;
    }
  }

  lemma {:induction false} SqueezeToken(w: string, t: string)
    requires NoSpace(w)
    ensures Squeeze(w + t) == w + Squeeze(t)
    decreases |w|
  {
    if |w| > 0 {
      assert (w + t)[1..] == w[1..] + t;
      SqueezeToken(w[1..], t);
      assert w == [w[0]] + w[1..];
    } else {
      assert w + t == t;
    }
  }

  /** Prefixing a string that ends in a non-word character shifts every
      `\b<w>\b` match and creates none. */
  lemma WordAtShift(p: string, s: string, k: int, w: string)
    requires |p| > 0 && !IsWordChar(p[|p| - 1]) && 0 <= k
    ensures WordAt(p + s, |p| + k, w) <==> WordAt(s, k, w)
  {
    var t := p + s;
    if |p| + k + |w| <= |t| {
      assert t[|p| + k..|p| + k + |w|] == s[k..k + |w|];
      if k > 0 {
        assert t[|p| + k - 1] == s[k - 1];
      }
      if |p| + k + |w| < |t| {
        assert t[|p| + k + |w|] == s[k + |w|];
      }
    }
  }

  /** Inside a run of word characters followed by a non-word character or
      the end, `\b<w>\b` can only match the whole run. */
  lemma WordAtInRun(s: string, c: string, k: int, w: string)
    requires |c| > 0 && AllWordChars(c) && |w| > 0 && AllWordChars(w)
    requires StartsWith(s, c) && (|s| == |c| || !IsWordChar(s[|c|]))
    requires 0 <= k <= |c|
    ensures WordAt(s, k, w) <==> k == 0 && w == c
  {
    if WordAt(s, k, w) {
      assert s[..|c|] == c;
    }
    if k == 0 && w == c {
      assert s[..|c|] == c;
    }
  }

  /** Over words made of word characters, joined by spaces, `\b<w>\b`
      matches exactly when w is one of the words. */
  lemma {:induction false} HasWordInUnwords(ws: seq<string>, w: string)
    requires forall k :: 0 <= k < |ws| ==> |ws[k]| > 0 && AllWordChars(ws[k])
    requires |w| > 0 && AllWordChars(w)
    ensures HasWordFrom(Unwords(ws), 0, w) <==> w in ws
  {
    if |ws| == 1 {
      var c := ws[0];
      assert StartsWith(c, c);
      if HasWordFrom(c, 0, w) {
        var k :| 0 <= k <= |c| && WordAt(c, k, w);
        WordAtInRun(c, c, k, w);
      }
      if w == c {
        WordAtInRun(c, c, 0, w);
      }
    } else if |ws| > 1 {
      HasWordInUnwords(ws[1..], w);
      HasWordInJoin(ws[0], Unwords(ws[1..]), w);
      assert ws == [ws[0]] + ws[1..];
    }
  }

  /** In a word of word characters, a space and a rest, `\b<w>\b` matches
      exactly when w is that first word or matches in the rest. */
  lemma HasWordInJoin(c: string, rest: string, w: string)
    requires |c| > 0 && AllWordChars(c) && |w| > 0 && AllWordChars(w)
    ensures HasWordFrom(c + " " + rest, 0, w) <==> w == c || HasWordFrom(rest, 0, w)
  {
    var p := c + " ";
    var s := p + rest;
    assert c + " " + rest == s;
    assert StartsWith(s, c) && s[|c|] == ' ';
    if HasWordFrom(s, 0, w) {
      var k :| 0 <= k <= |s| && WordAt(s, k, w);
      if k <= |c| {
        WordAtInRun(s, c, k, w);
      } else {
        WordAtShift(p, rest, k - |p|, w);
      }
    }
    if w == c {
      WordAtInRun(s, c, 0, w);
    } else if HasWordFrom(rest, 0, w) {
      var k :| 0 <= k <= |rest| && WordAt(rest, k, w);
      WordAtShift(p, rest, k, w);
    }
  }

  /** After a prefix ending in a non-word character, `\b<w>\b` matches
      from the prefix's last character on exactly when it matches in the
      rest, for a w that starts with a word character. */
  lemma HasWordAfter(p: string, s: string, w: string)
    requires |p| > 0 && !IsWordChar(p[|p| - 1]) && |w| > 0 && IsWordChar(w[0])
    ensures HasWordFrom(p + s, |p| - 1, w) <==> HasWordFrom(s, 0, w)
  {
    var t := p + s;
    if HasWordFrom(t, |p| - 1, w) {
      var k :| |p| - 1 <= k <= |t| && WordAt(t, k, w);
      assert t[k] == w[0];
      WordAtShift(p, s, k - |p|, w);
    }
    if HasWordFrom(s, 0, w) {
      var k :| 0 <= k <= |s| && WordAt(s, k, w);
      WordAtShift(p, s, k, w);
    }
  }
}
