// Removal of `//` line comments and `/* ... */` block comments from JSON text, as a small
// state machine over the characters: `inStr` flips at every `"`, `inBig` is set by `/*` and
// cleared by `*/`.
module Comments {

  /** The index of the first `\n` at or after `i`, or `|s|` when there is none. */
  function SkipLine(s: string, i: nat): (j: nat)
    requires i <= |s|
    ensures i <= j <= |s|
    ensures j < |s| ==> s[j] == '\n'
    ensures forall k :: i <= k < j ==> s[k] != '\n'
    decreases |s| - i
  {
    if i == |s| || s[i] == '\n' then i else SkipLine(s, i + 1)
  }

  /** `s[i]` and `s[i+1]` exist and are `a` and `b`. */
  predicate PairAt(s: string, i: nat, a: char, b: char) {
    i + 1 < |s| && s[i] == a && s[i + 1] == b
  }

  // What the stripper emits from position `i` on, in state (`inStr`, `inBig`).  One step per
  // character, following the program's branch order: the quote toggle first; then, outside a
  // string, `//` (checked even inside a block comment), `/*`, the closing `*/`, and any other
  // character of a block comment; a character is kept when no block comment is open.
  function Scan(s: string, i: nat, inStr: bool, inBig: bool): (r: string)
    requires i <= |s|
    ensures |r| <= |s| - i
    decreases |s| - i
  {
    if i == |s| then ""
    else
      var sym := s[i];
      var str := if sym == '"' then !inStr else inStr;
      if !str && PairAt(s, i, '/', '/') then Scan(s, SkipLine(s, i), str, inBig)
      else if !str && PairAt(s, i, '/', '*') then Scan(s, i + 2, str, true)
      else if !str && inBig && PairAt(s, i, '*', '/') then Scan(s, i + 2, str, false)
      else if !str && inBig then Scan(s, i + 1, str, inBig)
      else if !inBig then [sym] + Scan(s, i + 1, str, inBig)
      else Scan(s, i + 1, str, inBig)
  }

  /** The text with its comments removed. */
  function Strip(s: string): string {
    Scan(s, 0, false, false)
  }

  /** The new `inStr` after reading `s[i]`: flipped by a quote. */
  function Toggle(s: string, i: nat, inStr: bool): bool
    requires i < |s|
  {
    if s[i] == '"' then !inStr else inStr
  }

  /** How one step of the machine advances: to `next` in state (`str`, `big`), emitting `out`. */
  lemma ScanStep(s: string, i: nat, inStr: bool, inBig: bool)
    requires i < |s|
    ensures var str := Toggle(s, i, inStr);
      && (!str && PairAt(s, i, '/', '/') ==> Scan(s, i, inStr, inBig) == Scan(s, SkipLine(s, i), str, inBig))
      && (!str && !PairAt(s, i, '/', '/') && PairAt(s, i, '/', '*') ==> Scan(s, i, inStr, inBig) == Scan(s, i + 2, str, true))
      && (!str && !PairAt(s, i, '/', '/') && !PairAt(s, i, '/', '*') && inBig && PairAt(s, i, '*', '/') ==>
            Scan(s, i, inStr, inBig) == Scan(s, i + 2, str, false))
      && (!str && !PairAt(s, i, '/', '/') && !PairAt(s, i, '/', '*') && inBig && !PairAt(s, i, '*', '/') ==>
            Scan(s, i, inStr, inBig) == Scan(s, i + 1, str, inBig))
      && ((str || (!PairAt(s, i, '/', '/') && !PairAt(s, i, '/', '*'))) && !inBig ==>
            Scan(s, i, inStr, inBig) == [s[i]] + Scan(s, i + 1, str, inBig))
      && (str && inBig ==> Scan(s, i, inStr, inBig) == Scan(s, i + 1, str, inBig))
  {
  }

  /** One step of the machine from position `i`: where it goes on, its new state, whether `s[i]` is kept. */
  datatype Move = Move(next: nat, inStr: bool, inBig: bool, keep: bool)

  function Step(s: string, i: nat, inStr: bool, inBig: bool): (m: Move)
    requires i < |s|
    ensures i < m.next <= |s|
  {
    var str := Toggle(s, i, inStr);
    if !str && PairAt(s, i, '/', '/') then Move(SkipLine(s, i), str, inBig, false)
    else if !str && PairAt(s, i, '/', '*') then Move(i + 2, str, true, false)
    else if !str && inBig && PairAt(s, i, '*', '/') then Move(i + 2, str, false, false)
    else Move(i + 1, str, inBig, !inBig)
  }

  /** The scan is the step's output followed by the scan from where the step leaves off. */
  lemma ScanByStep(s: string, i: nat, inStr: bool, inBig: bool)
    requires i < |s|
    ensures var m := Step(s, i, inStr, inBig);
      Scan(s, i, inStr, inBig) == (if m.keep then [s[i]] else []) + Scan(s, m.next, m.inStr, m.inBig)
  {
    var m := Step(s, i, inStr, inBig);
    if !m.keep {
      assert Scan(s, i, inStr, inBig) == Scan(s, m.next, m.inStr, m.inBig);
    }
  }

  /** Stepping keeps the loop's account of the output: what is written plus what remains is the whole. */
  lemma ScanAdvance(s: string, i: nat, inStr: bool, inBig: bool, out: string)
    requires i < |s| && out + Scan(s, i, inStr, inBig) == Strip(s)
    ensures var m := Step(s, i, inStr, inBig);
      (out + (if m.keep then [s[i]] else [])) + Scan(s, m.next, m.inStr, m.inBig) == Strip(s)
  {
    var m := Step(s, i, inStr, inBig);
    var kept := if m.keep then [s[i]] else [];
    ScanByStep(s, i, inStr, inBig);
    Regroup(out, kept, Scan(s, m.next, m.inStr, m.inBig));
  }

  lemma Regroup(a: string, b: string, c: string)
    ensures (a + b) + c == a + (b + c)
  {
  }

  /**
   * `clear_comments`: the same state machine run as an in-place compaction over the
   * character vector, with a write pointer that never overtakes the read pointer.
   */
  method ClearComments(content: string) returns (r: string)
    ensures r == Strip(content)
    ensures |r| <= |content|
  {
    var chars := content;
    var inBig := false;
    var inStr := false;
    var w := 0;
    var i := 0;
    ghost var out := "";
    while i < |chars|
      invariant |chars| == |content|
      invariant 0 <= w <= i <= |chars|
      invariant forall k :: i <= k < |chars| ==> chars[k] == content[k]
      invariant chars[..w] == out
      invariant out + Scan(content, i, inStr, inBig) == Strip(content)
      decreases |chars| - i
    {
      ghost var kept := if Step(content, i, inStr, inBig).keep then [content[i]] else [];
      ScanAdvance(content, i, inStr, inBig, out);
      chars, w, i, inStr, inBig := Advance(chars, content, w, i, inStr, inBig);
      out := out + kept;
    }
    r := chars[..w];
  }

  /**
   * One iteration of the loop: the quote toggle, then the first branch that applies.  A kept
   * character is moved to the write pointer `w`; the read pointer `i` moves to where the step
   * says.
   */
  method Advance(chars: string, content: string, w: nat, i: nat, inStr: bool, inBig: bool)
    returns (chars': string, w': nat, i': nat, inStr': bool, inBig': bool)
    requires |chars| == |content| && w <= i < |chars|
    requires forall k :: i <= k < |chars| ==> chars[k] == content[k]
    ensures var m := Step(content, i, inStr, inBig);
      && i' == m.next && inStr' == m.inStr && inBig' == m.inBig
      && w' == (if m.keep then w + 1 else w)
    ensures |chars'| == |chars| && w' <= i'
    ensures chars'[..w'] == chars[..w] + (if w' == w then [] else [content[i]])
    ensures forall k :: i' <= k < |chars'| ==> chars'[k] == chars[k]
  {
    chars', w', i', inStr', inBig' := chars, w, i, inStr, inBig;
    var sym := chars[i];
    if sym == '"' {
      inStr' := !inStr';
    }
    if !inStr' && sym == '/' && i + 1 < |chars| && chars[i + 1] == '/' {
      i' := SkipComment(chars, content, i);
    } else if !inStr' && sym == '/' && i + 1 < |chars| && chars[i + 1] == '*' {
      inBig' := true;
      i' := i + 2;
    } else if !inStr' && inBig && sym == '*' && i + 1 < |chars| && chars[i + 1] == '/' {
      inBig' := false;
      i' := i + 2;
    } else if !inStr' && inBig {
      i' := i + 1;
    } else {
      if !inBig {
        chars' := Keep(chars, w, i);
        w' := w + 1;
      }
      i' := i + 1;
    }
  }

  /** The inner loop of a line comment: skip up to, not including, the newline. */
  method SkipComment(chars: string, content: string, i: nat) returns (j: nat)
    requires i <= |chars| == |content|
    requires forall k :: i <= k < |chars| ==> chars[k] == content[k]
    ensures j == SkipLine(content, i)
  {
    j := i;
    while j < |chars| && chars[j] != '\n'
      invariant i <= j <= |chars|
      invariant SkipLine(content, j) == SkipLine(content, i)
      decreases |chars| - j
    {
      j := j + 1;
    }
  }

  /** Moves the character at the read pointer `i` to the write pointer `w` (a no-op when they meet). */
  method Keep(chars: string, w: nat, i: nat) returns (r: string)
    requires w <= i < |chars|
    ensures |r| == |chars|
    ensures r[..w + 1] == chars[..w] + [chars[i]]
    ensures forall k :: i < k < |chars| ==> r[k] == chars[k]
  {
    r := chars;
    if w != i {
      r := chars[w := chars[i]];
    }
    assert r[..w + 1] == chars[..w] + [chars[i]];
  }

  /** `a` can be obtained from `b` by deleting characters. */
  predicate IsSubsequence(a: string, b: string)
    decreases |b|
  {
    if |a| == 0 then true
    else if |b| == 0 then false
    else (a[0] == b[0] && IsSubsequence(a[1..], b[1..])) || IsSubsequence(a, b[1..])
  }

  lemma {:induction false} SubsequenceOfSuffix(a: string, b: string, n: nat)
    requires n <= |b| && IsSubsequence(a, b[n..])
    ensures IsSubsequence(a, b)
    decreases n
  {
    if n > 0 {
      SubsequenceOfSuffix(a, b, n - 1);
      assert b[n - 1..][1..] == b[n..];
    }
  }

  lemma {:induction false} ScanIsSubsequence(s: string, i: nat, inStr: bool, inBig: bool)
    requires i <= |s|
    ensures IsSubsequence(Scan(s, i, inStr, inBig), s[i..])
    decreases |s| - i
  {
    if i < |s| {
      ScanStep(s, i, inStr, inBig);
      var str := Toggle(s, i, inStr);
      var r := Scan(s, i, inStr, inBig);
      if !str && PairAt(s, i, '/', '/') {
        var j := SkipLine(s, i);
        ScanIsSubsequence(s, j, str, inBig);
        assert s[i..][j - i..] == s[j..];
        SubsequenceOfSuffix(r, s[i..], j - i);
      } else if !str && PairAt(s, i, '/', '*') {
        ScanIsSubsequence(s, i + 2, str, true);
        assert s[i..][2..] == s[i + 2..];
        SubsequenceOfSuffix(r, s[i..], 2);
      } else if !str && inBig && PairAt(s, i, '*', '/') {
        ScanIsSubsequence(s, i + 2, str, false);
        assert s[i..][2..] == s[i + 2..];
        SubsequenceOfSuffix(r, s[i..], 2);
      } else if !inBig {
        ScanIsSubsequence(s, i + 1, str, inBig);
        assert r == [s[i]] + Scan(s, i + 1, str, inBig);
        assert s[i..][1..] == s[i + 1..];
      } else {
        ScanIsSubsequence(s, i + 1, str, inBig);
        assert s[i..][1..] == s[i + 1..];
        SubsequenceOfSuffix(r, s[i..], 1);
      }
    }
  }

  /** The stripped text is the input with some characters deleted: nothing is added or reordered. */
  lemma StripIsSubsequence(s: string)
    ensures IsSubsequence(Strip(s), s)
    ensures |Strip(s)| <= |s|
  {
    ScanIsSubsequence(s, 0, false, false);
    assert s[0..] == s;
  }

  lemma {:induction false} ScanWithoutSlash(s: string, i: nat, inStr: bool)
    requires i <= |s|
    requires forall k :: i <= k < |s| ==> s[k] != '/'
    ensures Scan(s, i, inStr, false) == s[i..]
    decreases |s| - i
  {
    if i < |s| {
      ScanStep(s, i, inStr, false);
      ScanWithoutSlash(s, i + 1, Toggle(s, i, inStr));
      assert s[i..] == [s[i]] + s[i + 1..];
    }
  }

  /** Text with no `/` in it has no comment to remove and comes back unchanged. */
  lemma StripWithoutSlash(s: string)
    requires forall k :: 0 <= k < |s| ==> s[k] != '/'
    ensures Strip(s) == s
  {
    ScanWithoutSlash(s, 0, false);
    assert s[0..] == s;
  }

  /**
   * Outside a string, `//` drops everything up to the next newline; the newline itself is
   * kept when no block comment is open, and the text after it is stripped as before.
   */
  lemma LineComment(s: string, i: nat)
    requires PairAt(s, i, '/', '/')
    ensures Scan(s, i, false, false)
         == (if SkipLine(s, i) < |s| then "\n" + Scan(s, SkipLine(s, i) + 1, false, false) else "")
  {
    ScanStep(s, i, false, false);
    var j := SkipLine(s, i);
    if j < |s| {
      ScanStep(s, j, false, false);
    }
  }

  lemma {:induction false} InsideBlockComment(s: string, m: nat, k: nat)
    requires m <= k && PairAt(s, k, '*', '/')
    requires forall x :: m <= x < k ==> s[x] != '"' && !PairAt(s, x, '/', '/') && !PairAt(s, x, '*', '/')
    requires m < k ==> s[k - 1] != '/'
    ensures Scan(s, m, false, true) == Scan(s, k + 2, false, false)
    decreases k - m
  {
    if m == k {
      ScanStep(s, k, false, true);
    } else {
      ScanByStep(s, m, false, true);
      var mv := Step(s, m, false, true);
      assert PairAt(s, m, '/', '*') ==> m + 1 < k;
      InsideBlockComment(s, mv.next, k);
    }
  }

  // Outside a string, `/*` up to and including the first `*/` is removed, provided the
  // comment holds no `"` (which would flip the string state), no `//` (a line comment that
  // could run past the `*/`), and no `/` just before the `*/` (which would pair with its `*`
  // as another `/*`).
  lemma BlockComment(s: string, i: nat, k: nat)
    requires PairAt(s, i, '/', '*') && i + 2 <= k && PairAt(s, k, '*', '/')
    requires forall x :: i + 2 <= x < k ==> s[x] != '"' && !PairAt(s, x, '/', '/') && !PairAt(s, x, '*', '/')
    requires s[k - 1] != '/'
    ensures Scan(s, i, false, false) == Scan(s, k + 2, false, false)
  {
    ScanStep(s, i, false, false);
    InsideBlockComment(s, i + 2, k);
  }

  // Once a block comment is open and no `*/` follows, nothing more is emitted, quotes or not.
  lemma {:induction false} InsideOpenComment(s: string, m: nat, inStr: bool)
    requires m <= |s|
    requires forall x :: m <= x ==> !PairAt(s, x, '*', '/')
    ensures Scan(s, m, inStr, true) == ""
    decreases |s| - m
  {
    if m < |s| {
      ScanByStep(s, m, inStr, true);
      var mv := Step(s, m, inStr, true);
      InsideOpenComment(s, mv.next, mv.inStr);
    }
  }

  // Outside a string, a `/*` with no `*/` anywhere after it removes the rest of the text.
  lemma UnterminatedBlockComment(s: string, i: nat)
    requires PairAt(s, i, '/', '*')
    requires forall x :: i + 2 <= x ==> !PairAt(s, x, '*', '/')
    ensures Scan(s, i, false, false) == ""
  {
    ScanStep(s, i, false, false);
    InsideOpenComment(s, i + 2, false);
  }

  lemma {:induction false} InsideString(s: string, m: nat, j: nat)
    requires m <= j < |s| && s[j] == '"'
    requires forall x :: m <= x < j ==> s[x] != '"'
    ensures Scan(s, m, true, false) == s[m..j + 1] + Scan(s, j + 1, false, false)
    decreases j - m
  {
    ScanStep(s, m, true, false);
    if m < j {
      InsideString(s, m + 1, j);
      assert s[m..j + 1] == [s[m]] + s[m + 1..j + 1];
    } else {
      assert s[m..j + 1] == [s[m]];
    }
  }

  /**
   * A string literal, from its opening `"` to the next `"`, is copied verbatim, comment
   * markers included.  There is no escape handling: `\"` closes the string too.
   */
  lemma StringLiteral(s: string, i: nat, j: nat)
    requires i < j < |s| && s[i] == '"' && s[j] == '"'
    requires forall x :: i < x < j ==> s[x] != '"'
    ensures Scan(s, i, false, false) == s[i..j + 1] + Scan(s, j + 1, false, false)
  {
    ScanStep(s, i, false, false);
    InsideString(s, i + 1, j);
    assert s[i..j + 1] == [s[i]] + s[i + 1..j + 1];
  }

  // A quote inside a block comment still flips the string state and so hides the `*/`
  // that follows: `/*"*/1` loses the `1`, where `/**/1` keeps it.
  lemma QuoteHidesCommentEnd()
    ensures Strip("/*\"*/1") == ""
    ensures Strip("/**/1") == "1"
  {
    var s := "/*\"*/1";
    ScanStep(s, 0, false, false);
    ScanStep(s, 2, false, true);
    ScanStep(s, 3, true, true);
    ScanStep(s, 4, true, true);
    ScanStep(s, 5, true, true);
    var t := "/**/1";
    ScanStep(t, 0, false, false);
    ScanStep(t, 2, false, true);
    ScanStep(t, 4, false, false);
  }

  // Two more ways a `*/` goes unseen inside a block comment: a `//` skips over it to the end
  // of the line, and a `/` just before it pairs with its `*` as a fresh `/*`.
  lemma CommentEndSkipped()
    ensures Strip("/*//*/\n1") == ""
    ensures Strip("/* /*/1") == ""
  {
    var s := "/*//*/\n1";
    ScanStep(s, 0, false, false);
    ScanStep(s, 2, false, true);
    assert SkipLine(s, 2) == 6;
    ScanStep(s, 6, false, true);
    ScanStep(s, 7, false, true);
    var t := "/* /*/1";
    ScanStep(t, 0, false, false);
    ScanStep(t, 2, false, true);
    ScanStep(t, 3, false, true);
    ScanStep(t, 5, false, true);
    ScanStep(t, 6, false, true);
  }
}
