/**
 * The few Python `str` operations the collection module relies on, written
 * out over `seq<char>`: `isspace`, `lstrip()`, `startswith`, `split(sep)`,
 * `sep.join(parts)`, `split()` with no argument, and the `in` substring test.
 */
module PyStrings {

  /**
   * Python's `str.isspace` on one character, by code point: tab to carriage
   * return, the four separators U+001C..U+001F, space, NEL, no-break space,
   * and the Unicode space separators.
   */
  predicate IsSpace(c: char) {
    var n := c as int;
    (9 <= n <= 13) || (28 <= n <= 32) || n == 0x85 || n == 0xA0 || n == 0x1680
    || (0x2000 <= n <= 0x200A) || n == 0x2028 || n == 0x2029 || n == 0x202F
    || n == 0x205F || n == 0x3000
  }

  /** Every character of `s` is whitespace. */
  predicate AllSpace(s: string) {
    forall i :: 0 <= i < |s| ==> IsSpace(s[i])
  }

  /** `s.lstrip()`. */
  function LStrip(s: string): string {
    if s != [] && IsSpace(s[0]) then LStrip(s[1..]) else s
  }

  /** `lstrip()` drops the leading whitespace and nothing else. */
  lemma {:induction false} LStripSpec(s: string)
    ensures |LStrip(s)| <= |s| && LStrip(s) == s[|s| - |LStrip(s)|..]
    ensures AllSpace(s[..|s| - |LStrip(s)|])
    ensures LStrip(s) == [] || !IsSpace(LStrip(s)[0])
  {
    if s != [] && IsSpace(s[0]) {
      LStripSpec(s[1..]);
      var r := LStrip(s);
      var k := |s| - |r|;
      assert s[1..][|s| - 1 - |r|..] == s[k..];
      assert forall i :: 1 <= i < k ==> s[..k][i] == s[1..][..k - 1][i - 1];
    }
  }

  /** `s.startswith(p)` for one prefix. */
  predicate StartsWith(s: string, p: string) {
    |p| <= |s| && s[..|p|] == p
  }

  /** `s.startswith(ps)` for a tuple of prefixes, tried in order. */
  predicate StartsWithAny(s: string, ps: seq<string>) {
    ps != [] && (StartsWith(s, ps[0]) || StartsWithAny(s, ps[1..]))
  }

  lemma {:induction false} StartsWithAnyIff(s: string, ps: seq<string>)
    ensures StartsWithAny(s, ps) <==> exists k :: 0 <= k < |ps| && StartsWith(s, ps[k])
  {
    if ps != [] {
      StartsWithAnyIff(s, ps[1..]);
      if StartsWith(s, ps[0]) {
        assert StartsWith(s, ps[0]);
      } else if StartsWithAny(s, ps[1..]) {
        var k :| 0 <= k < |ps[1..]| && StartsWith(s, ps[1..][k]);
        assert StartsWith(s, ps[k + 1]);
      } else {
        forall k | 0 <= k < |ps| ensures !StartsWith(s, ps[k]) {
          if k > 0 { assert ps[k] == ps[1..][k - 1]; }
        }
      }
    }
  }

  /** Index of the first occurrence of `c` in `s`. */
  function FirstIndex(s: string, c: char): (i: nat)
    requires c in s
    ensures i < |s| && s[i] == c && c !in s[..i]
    ensures forall j :: 0 <= j < i ==> s[j] != c
  {
    if s[0] == c then 0
    else
      var i := FirstIndex(s[1..], c) + 1;
      assert s[..i] == [s[0]] + s[1..][..i - 1];
      i
  }

  /** `s.split(sep)` for a one-character separator: empty pieces are kept. */
  function Split(s: string, sep: char): (parts: seq<string>)
    ensures |parts| >= 1
    ensures (|parts| > 1) == (sep in s)
    ensures forall k :: 0 <= k < |parts| ==> sep !in parts[k]
    decreases |s|
  {
    if sep !in s then [s]
    else
      var i := FirstIndex(s, sep);
      [s[..i]] + Split(s[i + 1..], sep)
  }

  /** `sep.join(parts)`. */
  function Join(parts: seq<string>, sep: string): string {
    if parts == [] then ""
    else if |parts| == 1 then parts[0]
    else parts[0] + sep + Join(parts[1..], sep)
  }

  /** Splitting on a character and joining on it again gives the string back. */
  lemma {:induction false} JoinSplit(s: string, sep: char)
    ensures Join(Split(s, sep), [sep]) == s
    decreases |s|
  {
    if sep in s {
      var i := FirstIndex(s, sep);
      JoinSplit(s[i + 1..], sep);
      assert s == s[..i] + [sep] + s[i + 1..];
    }
  }

  /** `s` with every `c` replaced by `d`. */
  function ReplaceChar(s: string, c: char, d: char): string {
    if s == [] then [] else [if s[0] == c then d else s[0]] + ReplaceChar(s[1..], c, d)
  }

  lemma {:induction false} ReplaceCharAppend(a: string, b: string, c: char, d: char)
    ensures ReplaceChar(a + b, c, d) == ReplaceChar(a, c, d) + ReplaceChar(b, c, d)
  {
    if a != [] {
      assert (a + b)[1..] == a[1..] + b;
      ReplaceCharAppend(a[1..], b, c, d);
    } else {
      assert a + b == b;
    }
  }

  lemma {:induction false} ReplaceCharAbsent(s: string, c: char, d: char)
    requires c !in s
    ensures ReplaceChar(s, c, d) == s
  {
    if s != [] {
      assert s[0] in s && forall x :: x in s[1..] ==> x in s;
      ReplaceCharAbsent(s[1..], c, d);
    }
  }

  /** Replacing through the first occurrence of `c` leaves the text before it alone. */
  lemma ReplaceCharAtFirst(pre: string, rest: string, c: char, d: char)
    requires c !in pre
    ensures ReplaceChar(pre + [c] + rest, c, d) == pre + [d] + ReplaceChar(rest, c, d)
  {
    ReplaceCharAppend(pre + [c], rest, c, d);
    ReplaceCharAppend(pre, [c], c, d);
    ReplaceCharAbsent(pre, c, d);
    assert ReplaceChar([c], c, d) == [d] + ReplaceChar([], c, d);
  }

  /** Splitting on `c` and joining on `d` replaces every `c` by `d`. */
  lemma {:induction false} JoinSplitReplace(s: string, c: char, d: char)
    ensures Join(Split(s, c), [d]) == ReplaceChar(s, c, d)
    decreases |s|
  {
    if c in s {
      var i := FirstIndex(s, c);
      var rest := s[i + 1..];
      JoinSplitReplace(rest, c, d);
      var parts := Split(s, c);
      assert parts == [s[..i]] + Split(rest, c);
      assert parts[1..] == Split(rest, c);
      assert Join(parts, [d]) == s[..i] + [d] + Join(Split(rest, c), [d]);
      var pre := s[..i];
      assert s == pre + [c] + rest;
      ReplaceCharAtFirst(pre, rest, c, d);
    } else {
      ReplaceCharAbsent(s, c, d);
    }
  }

  /** The first piece of a split is the text before the first separator. */
  lemma SplitHead(s: string, sep: char)
    ensures sep !in s ==> Split(s, sep)[0] == s
    ensures sep in s ==> Split(s, sep)[0] == s[..FirstIndex(s, sep)]
  {
  }

  lemma {:induction false} JoinAppend(ps: seq<string>, x: string, sep: string)
    requires ps != []
    ensures Join(ps + [x], sep) == Join(ps, sep) + sep + x
  {
    if |ps| > 1 {
      assert (ps + [x])[1..] == ps[1..] + [x];
      JoinAppend(ps[1..], x, sep);
    }
  }

  /** `w` holds no whitespace character. */
  predicate NoSpace(w: string) {
    forall i :: 0 <= i < |w| ==> !IsSpace(w[i])
  }

  /** The longest prefix of `s` that holds no whitespace. */
  function TakeWord(s: string): (w: string)
    ensures |w| <= |s| && w == s[..|w|]
    ensures NoSpace(w)
    ensures |w| == |s| || IsSpace(s[|w|])
  {
    if s == [] || IsSpace(s[0]) then [] else [s[0]] + TakeWord(s[1..])
  }

  /** Every element of `words` is a non-empty run of non-whitespace. */
  predicate AllWords(words: seq<string>) {
    forall k :: 0 <= k < |words| ==> words[k] != [] && NoSpace(words[k])
  }

  /** `s.split()`: the maximal runs of non-whitespace, in order. */
  function SplitWhitespace(s: string): (words: seq<string>)
    ensures AllWords(words)
    decreases |s|
  {
    if s == [] then []
    else if IsSpace(s[0]) then SplitWhitespace(s[1..])
    else
      var w := TakeWord(s);
      var rest := SplitWhitespace(s[|w|..]);
      assert ([w] + rest)[0] == w;
      assert forall k :: 1 <= k < |rest| + 1 ==> ([w] + rest)[k] == rest[k - 1];
      [w] + rest
  }

  /** The characters of `s` that are not whitespace, in order. */
  function NonSpace(s: string): string {
    if s == [] then [] else (if IsSpace(s[0]) then [] else [s[0]]) + NonSpace(s[1..])
  }

  function Concat(words: seq<string>): string {
    if words == [] then [] else words[0] + Concat(words[1..])
  }

  lemma {:induction false} NonSpaceAppend(a: string, b: string)
    ensures NonSpace(a + b) == NonSpace(a) + NonSpace(b)
  {
    if a != [] {
      assert (a + b)[1..] == a[1..] + b;
      NonSpaceAppend(a[1..], b);
    } else {
      assert a + b == b;
    }
  }

  lemma {:induction false} NonSpaceOfWord(s: string)
    requires NoSpace(s)
    ensures NonSpace(s) == s
  {
    if s != [] { NonSpaceOfWord(s[1..]); }
  }

  /** `s.split()` loses exactly the whitespace: its words concatenate to the rest. */
  lemma {:induction false} SplitWhitespaceKeepsText(s: string)
    ensures Concat(SplitWhitespace(s)) == NonSpace(s)
    decreases |s|
  {
    if s != [] && IsSpace(s[0]) {
      SplitWhitespaceKeepsText(s[1..]);
    } else if s != [] {
      var w := TakeWord(s);
      var rest := s[|w|..];
      assert s == w + rest;
      NonSpaceAppend(w, rest);
      NonSpaceOfWord(w);
      SplitWhitespaceKeepsText(rest);
      var words := SplitWhitespace(s);
      assert words == [w] + SplitWhitespace(rest);
      assert words[1..] == SplitWhitespace(rest);
    }
  }

  /**
   * `s` with every whitespace run squeezed to one space, read left to
   * right: `gap` records that whitespace was passed since the last kept
   * character, and a space is written only when a kept character follows.
   */
  function Squeeze(s: string, gap: bool): string
    decreases |s|
  {
    if s == [] then []
    else if IsSpace(s[0]) then Squeeze(s[1..], true)
    else (if gap then " " else "") + [s[0]] + Squeeze(s[1..], false)
  }

  /** `s` without leading or trailing whitespace, inner runs squeezed to one space. */
  function Collapse(s: string): string {
    Squeeze(LStrip(s), false)
  }

  lemma {:induction false} SqueezeWord(w: string, t: string, gap: bool)
    requires w != [] && NoSpace(w)
    ensures Squeeze(w + t, gap) == (if gap then " " else "") + w + Squeeze(t, false)
    decreases |w|
  {
    assert (w + t)[0] == w[0] && (w + t)[1..] == w[1..] + t;
    if |w| > 1 {
      SqueezeWord(w[1..], t, false);
      assert [w[0]] + w[1..] == w;
    } else {
      assert w[1..] + t == t && [w[0]] == w;
    }
  }

  lemma JoinCons(w: string, ws: seq<string>, sep: string)
    ensures Join([w] + ws, sep) == if ws == [] then w else w + sep + Join(ws, sep)
  {
    assert ([w] + ws)[1..] == ws;
  }

  /** Squeezing agrees with joining the words of `s.split()` on one space. */
  lemma {:induction false} SqueezeJoins(s: string, gap: bool)
    ensures Squeeze(s, gap) == if SplitWhitespace(s) == [] then []
            else (if gap || IsSpace(s[0]) then " " else "") + Join(SplitWhitespace(s), " ")
    decreases |s|
  {
    if s != [] && IsSpace(s[0]) {
      SqueezeJoins(s[1..], true);
    } else if s != [] {
      var w := TakeWord(s);
      var t := s[|w|..];
      assert s == w + t;
      SqueezeWord(w, t, gap);
      SqueezeJoins(t, false);
      JoinCons(w, SplitWhitespace(t), " ");
    }
  }

  lemma {:induction false} SplitWhitespaceLStrip(s: string)
    ensures SplitWhitespace(LStrip(s)) == SplitWhitespace(s)
    decreases |s|
  {
    if s != [] && IsSpace(s[0]) { SplitWhitespaceLStrip(s[1..]); }
  }

  /**
   * The words of `s.split()` are the maximal whitespace-free runs: joined on
   * one space they give `s` with its whitespace runs collapsed, so no word
   * is split in two and no two words are merged.
   */
  lemma SplitWhitespaceCollapses(s: string)
    ensures Join(SplitWhitespace(s), " ") == Collapse(s)
  {
    LStripSpec(s);
    SplitWhitespaceLStrip(s);
    SqueezeJoins(LStrip(s), false);
  }

  /** Python's `needle in hay` on strings. */
  predicate Contains(hay: string, needle: string)
    decreases |hay|
  {
    StartsWith(hay, needle) || (hay != [] && Contains(hay[1..], needle))
  }

  lemma {:induction false} ContainsIff(hay: string, needle: string)
    ensures Contains(hay, needle) <==> exists i :: 0 <= i <= |hay| && StartsWith(hay[i..], needle)
    decreases |hay|
  {
    assert hay[0..] == hay;
    if hay != [] {
      ContainsIff(hay[1..], needle);
      if Contains(hay, needle) && !StartsWith(hay, needle) {
        var i :| 0 <= i <= |hay[1..]| && StartsWith(hay[1..][i..], needle);
        assert hay[1..][i..] == hay[i + 1..];
      }
      if exists i :: 0 <= i <= |hay| && StartsWith(hay[i..], needle) {
        var i :| 0 <= i <= |hay| && StartsWith(hay[i..], needle);
        if i > 0 {
          assert hay[1..][i - 1..] == hay[i..];
          assert StartsWith(hay[1..][i - 1..], needle);
        }
      }
    }
  }
}
