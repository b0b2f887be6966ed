/** The JavaScript string operations the bot relies on: the `\s` character
    class, `String.prototype.length` (UTF-16 code units), `split(/\s+/)`,
    `split(' ')[0]`, `Array.prototype.join` and a regular-expression test for
    a literal pattern. Strings are sequences of Unicode scalar values. */
module JsStrings {

  /** The characters matched by `\s` in a JavaScript regular expression; the
      same set is what `Number(s)` trims (WhiteSpace and LineTerminator). */
  predicate IsWhitespace(c: char)
  {
    var n := c as int;
    (0x09 <= n <= 0x0D) || n == 0x20 || n == 0xA0 || n == 0x1680 ||
    (0x2000 <= n <= 0x200A) || n == 0x2028 || n == 0x2029 || n == 0x202F ||
    n == 0x205F || n == 0x3000 || n == 0xFEFF
  }

  predicate NoWhitespace(s: string)
  {
    forall i :: 0 <= i < |s| ==> !IsWhitespace(s[i])
  }

  /** Characters of the CJK Unified Ideographs block are never whitespace. */
  lemma HanIsNotWhitespace(s: string)
    requires forall i :: 0 <= i < |s| ==> 0x4E00 <= s[i] as int <= 0x9FFF
    ensures NoWhitespace(s)
  {
  }

  /** `s.length`: characters outside the Basic Multilingual Plane take two
      UTF-16 code units. */
  function Utf16Length(s: string): (n: nat)
    ensures |s| <= n <= 2 * |s|
    ensures (forall i :: 0 <= i < |s| ==> s[i] as int <= 0xFFFF) ==> n == |s|
  {
    if s == [] then 0
    else Utf16Length(s[..|s| - 1]) + (if s[|s| - 1] as int > 0xFFFF then 2 else 1)
  }

  /** The length of a concatenation is the sum of the lengths. */
  lemma {:induction false} Utf16LengthAppend(a: string, b: string)
    ensures Utf16Length(a + b) == Utf16Length(a) + Utf16Length(b)
    decreases |b|
  {
    if b == [] {
      assert a + b == a;
    } else {
      var init := b[..|b| - 1];
      assert (a + b)[..|a + b| - 1] == a + init;
      Utf16LengthAppend(a, init);
    }
  }

  /** A character outside the Basic Multilingual Plane (an emoji, say)
      counts twice: appending one adds 2 to `length`. */
  lemma AstralCountsTwice(s: string, c: char)
    requires c as int > 0xFFFF
    ensures Utf16Length(s + [c]) == Utf16Length(s) + 2
  {
    Utf16LengthAppend(s, [c]);
    assert [c][..0] == [];
  }

  /** Index of the first whitespace character of `s`, or `|s|` if none. */
  function FirstWhitespace(s: string): (i: nat)
    ensures i <= |s|
    ensures i < |s| ==> IsWhitespace(s[i])
    ensures NoWhitespace(s[..i])
  {
    if s == [] then 0
    else if IsWhitespace(s[0]) then 0
    else 1 + FirstWhitespace(s[1..])
  }

  /** Index just past the run of whitespace that starts at `i`. */
  function EndOfWhitespaceRun(s: string, i: nat): (j: nat)
    requires i <= |s|
    ensures i <= j <= |s|
    ensures forall k :: i <= k < j ==> IsWhitespace(s[k])
    ensures j < |s| ==> !IsWhitespace(s[j])
    decreases |s| - i
  {
    if i == |s| || !IsWhitespace(s[i]) then i
    else EndOfWhitespaceRun(s, i + 1)
  }

  /** `s.split(/\s+/)`: the pieces between maximal runs of whitespace. A
      leading or trailing run yields an empty first or last piece, and the
      empty string yields one empty piece. */
  function SplitWhitespace(s: string): (fields: seq<string>)
    ensures |fields| >= 1
    ensures |fields| == 1 <==> NoWhitespace(s)
    ensures NoWhitespace(s) ==> fields == [s]
    ensures fields[0] == s[..FirstWhitespace(s)]
    ensures forall f :: f in fields ==> NoWhitespace(f)
    decreases |s|
  {
    var i := FirstWhitespace(s);
    if i == |s| then [s]
    else
      var j := EndOfWhitespaceRun(s, i);
      [s[..i]] + SplitWhitespace(s[j..])
  }

  /** `n.split(' ')[0]`: the text before the first space character. */
  function BeforeFirstSpace(s: string): (head: string)
    ensures head <= s
    ensures ' ' !in head
    ensures |head| < |s| ==> s[|head|] == ' '
  {
    if s == [] || s[0] == ' ' then [] else [s[0]] + BeforeFirstSpace(s[1..])
  }

  /** `parts.join(sep)`. */
  function Join(parts: seq<string>, sep: string): (r: string)
    ensures parts == [] ==> r == []
    ensures |parts| == 1 ==> r == parts[0]
  {
    if parts == [] then []
    else if |parts| == 1 then parts[0]
    else Join(parts[..|parts| - 1], sep) + sep + parts[|parts| - 1]
  }

  /** `s.split(c)` for a one-character separator: the pieces between the
      occurrences of `c`, in order. */
  function SplitOn(s: string, c: char): (pieces: seq<string>)
    ensures |pieces| >= 1
    ensures c !in s ==> pieces == [s]
  {
    if s == [] then [[]]
    else if s[0] == c then [[]] + SplitOn(s[1..], c)
    else
      var rest := SplitOn(s[1..], c);
      assert c !in s ==> c !in s[1..] && [s[0]] + s[1..] == s;
      [[s[0]] + rest[0]] + rest[1..]
  }

  /** A separator followed by a piece without it splits off that last piece. */
  lemma {:induction false} SplitOnLast(x: string, c: char, last: string)
    requires c !in last
    ensures SplitOn(x + [c] + last, c) == SplitOn(x, c) + [last]
    decreases |x|
  {
    var s := x + [c] + last;
    if x == [] {
      assert s[1..] == last;
    } else {
      assert s[1..] == x[1..] + [c] + last;
      SplitOnLast(x[1..], c, last);
    }
  }

  /** `parts.join(c).split(c)` gives the parts back when none contains `c`. */
  lemma {:induction false} SplitOnJoin(parts: seq<string>, c: char)
    requires |parts| >= 1
    requires forall i :: 0 <= i < |parts| ==> c !in parts[i]
    ensures SplitOn(Join(parts, [c]), c) == parts
  {
    if |parts| > 1 {
      var init := parts[..|parts| - 1];
      SplitOnJoin(init, c);
      SplitOnLast(Join(init, [c]), c, parts[|parts| - 1]);
      assert init + [parts[|parts| - 1]] == parts;
    }
  }

  /** `/pattern/.test(s)` for a pattern made of ordinary characters only. */
  predicate Contains(s: string, pattern: string)
  {
    pattern <= s || (s != [] && Contains(s[1..], pattern))
  }

  /** `s.trim()`, the trimming done by `Number(s)`. */
  function Trim(s: string): (t: string)
    ensures |t| <= |s|
    ensures t == [] || (!IsWhitespace(t[0]) && !IsWhitespace(t[|t| - 1]))
    ensures NoWhitespace(s) ==> t == s
  {
    TrimEnd(TrimStart(s))
  }

  function TrimStart(s: string): (t: string)
    ensures |t| <= |s|
    ensures t == [] || !IsWhitespace(t[0])
    ensures NoWhitespace(s) ==> t == s
  {
    if s != [] && IsWhitespace(s[0]) then TrimStart(s[1..]) else s
  }

  function TrimEnd(s: string): (t: string)
    ensures t <= s
    ensures t == [] || !IsWhitespace(t[|t| - 1])
    ensures s == [] || !IsWhitespace(s[0]) ==> t == [] || !IsWhitespace(t[0])
    ensures NoWhitespace(s) ==> t == s
  {
    if s != [] && IsWhitespace(s[|s| - 1]) then TrimEnd(s[..|s| - 1]) else s
  }

  /** A text that begins with whitespace splits into an empty first piece. */
  lemma LeadingWhitespaceGivesEmptyHead(s: string)
    requires |s| > 0 && IsWhitespace(s[0])
    ensures SplitWhitespace(s)[0] == ""
  {
  }

  /** A word followed by whitespace and nothing else splits into the word and
      one empty piece. */
  lemma {:induction false} TrailingWhitespaceGivesEmptyTail(w: string, ws: string)
    requires |w| > 0 && NoWhitespace(w)
    requires |ws| > 0 && forall k :: 0 <= k < |ws| ==> IsWhitespace(ws[k])
    ensures SplitWhitespace(w + ws) == [w, ""]
  {
    var s := w + ws;
    FirstWhitespaceOfWord(w, ws);
    assert s[..|w|] == w;
    var j := EndOfWhitespaceRun(s, |w|);
    AllWhitespaceRun(s, |w|);
    assert s[j..] == [];
  }

  /** A word followed by whitespace and then a word splits into the two words. */
  lemma {:induction false} TwoWords(w: string, ws: string, v: string)
    requires |w| > 0 && NoWhitespace(w)
    requires |ws| > 0 && forall k :: 0 <= k < |ws| ==> IsWhitespace(ws[k])
    requires |v| > 0 && NoWhitespace(v)
    ensures SplitWhitespace(w + ws + v) == [w, v]
  {
    var s := w + ws + v;
    assert s == w + (ws + v);
    FirstWhitespaceOfWord(w, ws + v);
    assert s[..|w|] == w;
    var j := EndOfWhitespaceRun(s, |w|);
    RunStopsAtWord(s, |w|, |w| + |ws|);
    assert s[j..] == v;
    FirstWhitespaceOfWord(v, []);
    assert v + [] == v;
  }

  /** Whatever follows, `cmd[1]` is the word after the first run of
      whitespace: `w ws v rest` splits into `w`, `v` and the pieces of `rest`. */
  lemma {:induction false} SecondWord(w: string, ws: string, v: string, rest: string)
    requires |w| > 0 && NoWhitespace(w)
    requires |ws| > 0 && forall k :: 0 <= k < |ws| ==> IsWhitespace(ws[k])
    requires |v| > 0 && NoWhitespace(v)
    requires rest == [] || IsWhitespace(rest[0])
    ensures var fields := SplitWhitespace(w + ws + v + rest);
      |fields| >= 2 && fields[0] == w && fields[1] == v
  {
    assert w + ws + v + rest == w + ws + (v + rest);
    assert !IsWhitespace((v + rest)[0]);
    SplitAfterWord(w, ws, v + rest);
    FirstWhitespaceOfWord(v, rest);
    assert (v + rest)[..|v|] == v;
  }

  /** A word and a whitespace run split off as the first piece. */
  lemma SplitAfterWord(w: string, ws: string, t: string)
    requires NoWhitespace(w)
    requires |ws| > 0 && forall k :: 0 <= k < |ws| ==> IsWhitespace(ws[k])
    requires t != [] && !IsWhitespace(t[0])
    ensures SplitWhitespace(w + ws + t) == [w] + SplitWhitespace(t)
  {
    var s := w + ws + t;
    assert s == w + (ws + t);
    FirstWhitespaceOfWord(w, ws + t);
    assert s[..|w|] == w;
    RunStopsAtWord(s, |w|, |w| + |ws|);
    assert s[|w| + |ws|..] == t;
  }

  lemma {:induction false} FirstWhitespaceOfWord(w: string, rest: string)
    requires NoWhitespace(w)
    requires rest == [] || IsWhitespace(rest[0])
    ensures FirstWhitespace(w + rest) == |w|
    decreases |w|
  {
    if w != [] {
      assert (w + rest)[1..] == w[1..] + rest;
      FirstWhitespaceOfWord(w[1..], rest);
    }
  }

  lemma {:induction false} AllWhitespaceRun(s: string, i: nat)
    requires i <= |s|
    requires forall k :: i <= k < |s| ==> IsWhitespace(s[k])
    ensures EndOfWhitespaceRun(s, i) == |s|
    decreases |s| - i
  {
    if i < |s| {
      AllWhitespaceRun(s, i + 1);
    }
  }

  lemma {:induction false} RunStopsAtWord(s: string, i: nat, j: nat)
    requires i <= j <= |s|
    requires forall k :: i <= k < j ==> IsWhitespace(s[k])
    requires j < |s| && !IsWhitespace(s[j])
    ensures EndOfWhitespaceRun(s, i) == j
    decreases j - i
  {
    if i < j {
      RunStopsAtWord(s, i + 1, j);
    }
  }
}
