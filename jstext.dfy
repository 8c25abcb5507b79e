/**
 * The JavaScript string built-ins the AI service relies on: `trim`,
 * `includes`, and the two global `replace` calls of the code explainer.
 * A JavaScript string is a sequence of UTF-16 code units; every character
 * these operations look at lies in the Basic Multilingual Plane, so a Dafny
 * `string` stands for it.
 */
module JsText {

  /** JavaScript's white space and line terminators, the set `trim` and `\s` use. */
  predicate IsJsSpace(ch: char) {
    ch == '\t' || ch == '\n' || ch == '\U{000B}' || ch == '\U{000C}' || ch == '\r' ||
    ch == ' ' || ch == '\U{00A0}' || ch == '\U{1680}' ||
    ('\U{2000}' <= ch <= '\U{200A}') ||
    ch == '\U{2028}' || ch == '\U{2029}' || ch == '\U{202F}' || ch == '\U{205F}' ||
    ch == '\U{3000}' || ch == '\U{FEFF}'
  }

  /** The line terminators, the characters a regular-expression `.` does not match. */
  predicate IsLineTerminator(ch: char) {
    ch == '\n' || ch == '\r' || ch == '\U{2028}' || ch == '\U{2029}'
  }

  predicate AllSpace(s: string) {
    forall i :: 0 <= i < |s| ==> IsJsSpace(s[i])
  }

  /** Neither end of `s` is white space. */
  predicate IsTrimmed(s: string) {
    s == [] || (!IsJsSpace(s[0]) && !IsJsSpace(s[|s| - 1]))
  }

  predicate StartsWith(s: string, prefix: string) {
    |prefix| <= |s| && s[..|prefix|] == prefix
  }

  /** The end of the run of white space that starts at `i`. */
  function SpaceRunEnd(s: string, i: nat): (j: nat)
    requires i <= |s|
    ensures i <= j <= |s| && (j == |s| || !IsJsSpace(s[j]))
    ensures forall k :: i <= k < j ==> IsJsSpace(s[k])
    decreases |s| - i
  {
    if i < |s| && IsJsSpace(s[i]) then SpaceRunEnd(s, i + 1) else i
  }

  /** The start of the run of white space that ends at `j`. */
  function SpaceRunStart(s: string, j: nat): (i: nat)
    requires j <= |s|
    ensures i <= j && (i == 0 || !IsJsSpace(s[i - 1]))
    ensures forall k :: i <= k < j ==> IsJsSpace(s[k])
  {
    if j > 0 && IsJsSpace(s[j - 1]) then SpaceRunStart(s, j - 1) else j
  }

  /** `String.prototype.trim`: white space removed from both ends. */
  function Trim(s: string): (r: string)
    ensures IsTrimmed(r)
  {
    var a := SpaceRunEnd(s, 0);
    var b := SpaceRunStart(s, |s|);
    if b <= a then [] else s[a..b]
  }

  /** `s` is white space, then its trimmed self, then white space. */
  lemma TrimSplits(s: string) returns (w1: string, w2: string)
    ensures s == w1 + Trim(s) + w2 && AllSpace(w1) && AllSpace(w2)
  {
    var a := SpaceRunEnd(s, 0);
    var b := SpaceRunStart(s, |s|);
    if b <= a {
      w1, w2 := s, [];
      assert s == w1 + [] + w2;
      assert forall k :: 0 <= k < |s| ==> IsJsSpace(s[k]);
    } else {
      w1, w2 := s[..a], s[b..];
      assert s == s[..a] + s[a..b] + s[b..];
    }
  }

  lemma {:induction false} SpaceRunEndAt(s: string, i: nat, j: nat)
    requires i <= j <= |s| && (j == |s| || !IsJsSpace(s[j]))
    requires forall k :: i <= k < j ==> IsJsSpace(s[k])
    ensures SpaceRunEnd(s, i) == j
    decreases j - i
  {
    if i < j {
      SpaceRunEndAt(s, i + 1, j);
    }
  }

  lemma {:induction false} SpaceRunStartAt(s: string, i: nat, j: nat)
    requires i <= j <= |s| && (i == 0 || !IsJsSpace(s[i - 1]))
    requires forall k :: i <= k < j ==> IsJsSpace(s[k])
    ensures SpaceRunStart(s, j) == i
    decreases j - i
  {
    if i < j {
      SpaceRunStartAt(s, i, j - 1);
    }
  }

  /**
   * `trim` undoes any padding of a trimmed string with white space: it is the
   * one split of its input into white space, a trimmed middle, white space.
   */
  lemma TrimUnpads(w1: string, t: string, w2: string)
    requires AllSpace(w1) && IsTrimmed(t) && AllSpace(w2)
    ensures Trim(w1 + t + w2) == t
  {
    var s := w1 + t + w2;
    if t == [] {
      SpaceRunEndAt(s, 0, |s|);
    } else {
      SpaceRunEndAt(s, 0, |w1|);
      SpaceRunStartAt(s, |w1| + |t|, |s|);
      assert s[|w1|..|w1| + |t|] == t;
    }
  }

  /** A trimmed string is its own trim. */
  lemma TrimIdentity(t: string)
    requires IsTrimmed(t)
    ensures Trim(t) == t
  {
    assert [] + t + [] == t;
    TrimUnpads([], t, []);
  }

  /** Trimming twice is trimming once. */
  lemma TrimIdempotent(s: string)
    ensures Trim(Trim(s)) == Trim(s)
  {
    TrimIdentity(Trim(s));
  }

  /** `sub` occurs in `s` at index `i`. */
  predicate OccursAt(s: string, sub: string, i: int) {
    0 <= i && i + |sub| <= |s| && s[i..i + |sub|] == sub
  }

  /**
   * `String.prototype.includes`, searching from the left: true exactly when
   * `sub` occurs at some index of `s`, the empty `sub` included.
   */
  function Includes(s: string, sub: string): (b: bool)
    ensures b <==> exists i :: OccursAt(s, sub, i)
    decreases |s|
  {
    if |sub| > |s| then false
    else if s[..|sub|] == sub then
      assert OccursAt(s, sub, 0);
      true
    else
      OccurrencesShift(s, sub);
      Includes(s[1..], sub)
  }

  /** Past a mismatch at index 0, the occurrences of `sub` are those in `s[1..]`, shifted by one. */
  lemma OccurrencesShift(s: string, sub: string)
    requires |sub| <= |s| && s[..|sub|] != sub
    ensures (exists i :: OccursAt(s, sub, i)) <==> exists i :: OccursAt(s[1..], sub, i)
  {
    if i :| OccursAt(s[1..], sub, i) {
      assert s[i + 1..i + 1 + |sub|] == s[1..][i..i + |sub|];
      assert OccursAt(s, sub, i + 1);
    }
    if i :| OccursAt(s, sub, i) {
      assert i != 0;
      assert s[1..][i - 1..i - 1 + |sub|] == s[i..i + |sub|];
      assert OccursAt(s[1..], sub, i - 1);
    }
  }

  /** `sub` cannot be found in a string that lacks one of its characters. */
  lemma MissingCharExcludes(s: string, sub: string, k: nat)
    requires k < |sub| && sub[k] !in s
    ensures !Includes(s, sub)
  {
    forall i ensures !OccursAt(s, sub, i) {
      if 0 <= i && i + |sub| <= |s| {
        assert s[i..i + |sub|][k] == s[i + k] && s[i + k] in s;
      }
    }
  }

  /** `sub` is found wherever it occurs. */
  lemma OccurrenceIsIncluded(s: string, sub: string, i: int)
    requires OccursAt(s, sub, i)
    ensures Includes(s, sub)
  {
  }

  /** Where the first line terminator of `s` is, or `|s|` when there is none. */
  function LineEnd(s: string): (k: nat)
    ensures k <= |s| && (k < |s| ==> IsLineTerminator(s[k]))
    ensures forall i :: 0 <= i < k ==> !IsLineTerminator(s[i])
  {
    if s == [] || IsLineTerminator(s[0]) then 0 else 1 + LineEnd(s[1..])
  }

  /**
   * `s.replace(/### (.*?)\n/g, '$1\n\n')`: scanning left to right, each
   * `"### "` whose first following line terminator is `\n` loses the marker
   * and gets a second `\n`; the lazy group cannot cross any other terminator.
   */
  function RewriteHeadings(s: string): (r: string)
    ensures |r| <= |s|
    decreases |s|
  {
    if s == [] then []
    else if StartsWith(s, "### ") && LineEnd(s[4..]) < |s| - 4 && s[4 + LineEnd(s[4..])] == '\n' then
      var k := LineEnd(s[4..]);
      s[4..4 + k] + "\n\n" + RewriteHeadings(s[4 + k + 1..])
    else
      [s[0]] + RewriteHeadings(s[1..])
  }

  /** A heading line `### X\n` becomes `X\n\n`, and the rest is processed after it. */
  lemma HeadingLineRewritten(x: string, rest: string)
    requires forall i :: 0 <= i < |x| ==> !IsLineTerminator(x[i])
    ensures RewriteHeadings("### " + x + "\n" + rest) == x + "\n\n" + RewriteHeadings(rest)
  {
    var s := "### " + x + "\n" + rest;
    HeadingLineParts(x, rest);
    LineEndOfLine(x, "\n" + rest);
    assert s[4..] == x + ("\n" + rest);
  }

  lemma HeadingLineParts(x: string, rest: string)
    ensures var s := "### " + x + "\n" + rest;
      StartsWith(s, "### ") && s[4..] == x + ("\n" + rest) &&
      s[4..4 + |x|] == x && s[4 + |x|] == '\n' && s[4 + |x| + 1..] == rest
  {
    var s := "### " + x + "\n" + rest;
    assert s == "### " + (x + ("\n" + rest));
  }

  lemma {:induction false} LineEndOfLine(x: string, rest: string)
    requires forall i :: 0 <= i < |x| ==> !IsLineTerminator(x[i])
    requires rest != [] && IsLineTerminator(rest[0])
    ensures LineEnd(x + rest) == |x|
  {
    if x != [] {
      assert (x + rest)[1..] == x[1..] + rest;
      LineEndOfLine(x[1..], rest);
    }
  }

  /** Text without any `"### "` passes through unchanged. */
  lemma {:induction false} NoHeadingUnchanged(s: string)
    requires forall i :: !OccursAt(s, "### ", i)
    ensures RewriteHeadings(s) == s
    decreases |s|
  {
    if s != [] {
      assert !OccursAt(s, "### ", 0);
      assert !StartsWith(s, "### ") by {
        if |s| >= 4 {
          assert s[..4] == s[0..0 + 4];
        }
      }
      assert RewriteHeadings(s) == [s[0]] + RewriteHeadings(s[1..]);
      forall i ensures !OccursAt(s[1..], "### ", i) {
        if 0 <= i && i + 4 <= |s| - 1 {
          assert s[1..][i..i + 4] == s[i + 1..i + 1 + 4];
          assert !OccursAt(s, "### ", i + 1);
        }
      }
      NoHeadingUnchanged(s[1..]);
      assert [s[0]] + s[1..] == s;
    }
  }

  /** Text not opening with `"### "` keeps its first character. */
  lemma CopiesFirst(t: string)
    requires t != [] && !StartsWith(t, "### ")
    ensures RewriteHeadings(t) == [t[0]] + RewriteHeadings(t[1..])
  {
  }

  lemma NoHeadingInTail(p: string, s: string)
    requires p != [] && forall i :: 0 <= i < |p| ==> !OccursAt(p + s, "### ", i)
    ensures forall i :: 0 <= i < |p| - 1 ==> !OccursAt(p[1..] + s, "### ", i)
  {
    var t := p + s;
    forall i | 0 <= i < |p| - 1 ensures !OccursAt(p[1..] + s, "### ", i) {
      assert !OccursAt(t, "### ", i + 1);
      if i + 4 <= |t| - 1 {
        assert (p[1..] + s)[i..i + 4] == t[i + 1..i + 1 + 4];
      }
    }
  }

  /**
   * Text before the first `"### "` is copied as it is: the rewrite of `p + s`
   * is `p` followed by the rewrite of `s` when no `"### "` starts inside `p`.
   * With `HeadingLineRewritten` this covers every line that ends in `\n`;
   * `UnendedLineCopied` covers the other lines.
   */
  lemma {:induction false} CopiesPrefix(p: string, s: string)
    requires forall i :: 0 <= i < |p| ==> !OccursAt(p + s, "### ", i)
    ensures RewriteHeadings(p + s) == p + RewriteHeadings(s)
    decreases |p|
  {
    if p != [] {
      var t := p + s;
      assert !OccursAt(t, "### ", 0);
      assert !StartsWith(t, "### ") by {
        if |t| >= 4 {
          assert t[..4] == t[0..0 + 4];
        }
      }
      CopiesFirst(t);
      assert t[1..] == p[1..] + s;
      NoHeadingInTail(p, s);
      CopiesPrefix(p[1..], s);
      var r := RewriteHeadings(s);
      assert [p[0]] + (p[1..] + r) == ([p[0]] + p[1..]) + r;
      assert [p[0]] + p[1..] == p;
    } else {
      assert p + s == s;
    }
  }

  /** Whether a heading match starts at the beginning of `t`. */
  predicate HeadingMatchAtStart(t: string) {
    StartsWith(t, "### ") && LineEnd(t[4..]) < |t| - 4 && t[4 + LineEnd(t[4..])] == '\n'
  }

  /** Text where no match starts at the beginning keeps its first character. */
  lemma CopiesUnmatched(t: string)
    requires t != [] && !HeadingMatchAtStart(t)
    ensures RewriteHeadings(t) == [t[0]] + RewriteHeadings(t[1..])
  {
  }

  /** No match starts on a line that does not end in `\n`. */
  lemma UnendedLineUnmatched(y: string, rest: string)
    requires y != [] && forall i :: 0 <= i < |y| ==> !IsLineTerminator(y[i])
    requires rest == [] || (IsLineTerminator(rest[0]) && rest[0] != '\n')
    ensures !HeadingMatchAtStart(y + rest)
  {
    var t := y + rest;
    if StartsWith(t, "### ") {
      assert |y| >= 4 by {
        forall k | 0 <= k < 4 ensures !IsLineTerminator(t[k]) {
          assert t[k] == t[..4][k];
        }
        assert rest != [] ==> t[|y|] == rest[0];
      }
      assert t[4..] == y[4..] + rest;
      if rest != [] {
        LineEndOfLine(y[4..], rest);
        assert t[4 + (|y| - 4)] == rest[0];
      }
    }
  }

  /**
   * A line that ends in a terminator other than `\n`, or at the end of the
   * text, is copied as it is, any `"### "` in it included: the lazy group
   * cannot cross the terminator, so no match starts on that line.
   */
  lemma {:induction false} UnendedLineCopied(y: string, rest: string)
    requires forall i :: 0 <= i < |y| ==> !IsLineTerminator(y[i])
    requires rest == [] || (IsLineTerminator(rest[0]) && rest[0] != '\n')
    ensures RewriteHeadings(y + rest) == y + RewriteHeadings(rest)
    decreases |y|
  {
    if y != [] {
      var t := y + rest;
      UnendedLineUnmatched(y, rest);
      CopiesUnmatched(t);
      assert t[1..] == y[1..] + rest;
      UnendedLineCopied(y[1..], rest);
      var r := RewriteHeadings(rest);
      assert [y[0]] + (y[1..] + r) == ([y[0]] + y[1..]) + r;
      assert [y[0]] + y[1..] == y;
    } else {
      assert y + rest == rest;
    }
  }

  /** `s.replace(/\* /g, '- ')`: only a `*` can change, and only into `-`. */
  function ReplaceBullets(s: string): (r: string)
    ensures |r| == |s|
    ensures forall i :: 0 <= i < |s| ==> r[i] == s[i] || (s[i] == '*' && r[i] == '-')
    decreases |s|
  {
    if s == [] then []
    else if |s| >= 2 && s[0] == '*' && s[1] == ' ' then "- " + ReplaceBullets(s[2..])
    else [s[0]] + ReplaceBullets(s[1..])
  }

  /** Character `i` of the result: `-` where `s` has `"* "` starting at `i`, else `s[i]`. */
  function BulletedAt(s: string, i: nat): char
    requires i < |s|
  {
    if s[i] == '*' && i + 1 < |s| && s[i + 1] == ' ' then '-' else s[i]
  }

  /** The rewrite keeps the length and changes only the `*` of each `"* "`. */
  lemma {:induction false} ReplaceBulletsPointwise(s: string)
    ensures |ReplaceBullets(s)| == |s|
    ensures forall i :: 0 <= i < |s| ==> ReplaceBullets(s)[i] == BulletedAt(s, i)
    decreases |s|
  {
    if s == [] {
    } else if |s| >= 2 && s[0] == '*' && s[1] == ' ' {
      ReplaceBulletsPointwise(s[2..]);
      forall i | 2 <= i < |s| ensures BulletedAt(s, i) == BulletedAt(s[2..], i - 2) {
      }
    } else {
      ReplaceBulletsPointwise(s[1..]);
      forall i | 1 <= i < |s| ensures BulletedAt(s, i) == BulletedAt(s[1..], i - 1) {
      }
    }
  }

  /** No `"* "` is left after the rewrite. */
  lemma NoBulletLeft(s: string)
    ensures forall i :: !OccursAt(ReplaceBullets(s), "* ", i)
  {
    ReplaceBulletsPointwise(s);
    var r := ReplaceBullets(s);
    forall i ensures !OccursAt(r, "* ", i) {
      if 0 <= i && i + 2 <= |r| {
        assert r[i] == BulletedAt(s, i) && r[i + 1] == BulletedAt(s, i + 1);
        if r[i] == '*' {
          assert s[i + 1] != ' ';
          assert r[i + 1] != ' ';
        }
        assert r[i..i + 2] == [r[i], r[i + 1]];
      }
    }
  }
}
