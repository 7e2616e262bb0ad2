/** The string primitives of Python that the solver backend relies on:
    `str.isspace`/`\s`, `str.strip`, `re.sub(r'\s+', ' ', _)`, `str.split(sep)`,
    `sep in s` and `str(n)` for a natural number. */
module Text {

  datatype Option<+T> = None | Some(value: T)

  /** A whitespace character as Python's `str.isspace` and the `\s` class of a
      str pattern in `re` see it. */
  predicate IsSpace(c: char) {
    c == ' ' || ('\t' <= c <= '\r') || ('\U{1c}' <= c <= '\U{1f}') ||
    c == '\U{85}' || c == '\U{a0}' || c == '\U{1680}' ||
    ('\U{2000}' <= c <= '\U{200a}') || c == '\U{2028}' || c == '\U{2029}' ||
    c == '\U{202f}' || c == '\U{205f}' || c == '\U{3000}'
  }

  /** A decimal digit (the ASCII part of `\d`). */
  predicate IsDigit(c: char) {
    '0' <= c <= '9'
  }

  predicate IsBlank(s: string) {
    forall k :: 0 <= k < |s| ==> IsSpace(s[k])
  }

  /** The characters of `s` that are not whitespace, in order. */
  function NonSpace(s: string): string {
    if s == [] then []
    else (if IsSpace(s[0]) then [] else [s[0]]) + NonSpace(s[1..])
  }

  lemma {:induction false} NonSpaceAppend(a: string, b: string)
    ensures NonSpace(a + b) == NonSpace(a) + NonSpace(b)
  {
    if a != [] {
      var head := if IsSpace(a[0]) then [] else [a[0]];
      assert (a + b)[0] == a[0];
      assert (a + b)[1..] == a[1..] + b;
      assert NonSpace(a + b) == head + NonSpace(a[1..] + b);
      NonSpaceAppend(a[1..], b);
      assert head + (NonSpace(a[1..]) + NonSpace(b)) == (head + NonSpace(a[1..])) + NonSpace(b);
    } else {
      assert a + b == b;
    }
  }

  lemma {:induction false} NonSpaceEmptyIffBlank(s: string)
    ensures NonSpace(s) == [] <==> IsBlank(s)
  {
    if s != [] {
      NonSpaceEmptyIffBlank(s[1..]);
      if IsBlank(s[1..]) && IsSpace(s[0]) {
        forall k | 0 <= k < |s| ensures IsSpace(s[k]) {
          if k > 0 { assert s[k] == s[1..][k - 1]; }
        }
      }
    }
  }

  // ---------------------------------------------------------------- strip

  /** `s` without its leading whitespace. */
  function StripLeft(s: string): (r: string)
    ensures |r| <= |s|
    ensures forall k :: 0 <= k < |s| - |r| ==> IsSpace(s[k])
    ensures r != [] ==> !IsSpace(r[0])
    decreases |s|
  {
    if s != [] && IsSpace(s[0]) then StripLeft(s[1..]) else s
  }

  /** `s` without its trailing whitespace. */
  function StripRight(s: string): (r: string)
    ensures |r| <= |s| && r == s[..|r|]
    ensures forall k :: |r| <= k < |s| ==> IsSpace(s[k])
    ensures r != [] ==> !IsSpace(r[|r| - 1])
    decreases |s|
  {
    if s != [] && IsSpace(s[|s| - 1]) then StripRight(s[..|s| - 1]) else s
  }

  /** Where `s.strip()` starts: the number of leading whitespace characters. */
  function StripStart(s: string): (i: nat)
    ensures i <= |s|
  {
    |s| - |StripLeft(s)|
  }

  /** What is left after the leading whitespace is the rest of `s`. */
  lemma {:induction false} StripLeftSuffix(s: string)
    ensures StripLeft(s) == s[StripStart(s)..]
    decreases |s|
  {
    if s != [] && IsSpace(s[0]) {
      StripLeftSuffix(s[1..]);
      assert s[1..][StripStart(s[1..])..] == s[StripStart(s)..];
    }
  }

  /** Python's `s.strip()`: the longest infix of `s` that neither starts nor
      ends with whitespace, everything cut off being whitespace. */
  function Strip(s: string): (r: string)
    ensures r == [] || (!IsSpace(r[0]) && !IsSpace(r[|r| - 1]))
    ensures StripStart(s) + |r| <= |s|
    ensures forall k :: 0 <= k < StripStart(s) ==> IsSpace(s[k])
    ensures forall k :: StripStart(s) + |r| <= k < |s| ==> IsSpace(s[k])
  {
    var l := StripLeft(s);
    var r := StripRight(l);
    StripLeftSuffix(s);
    SuffixInfix(s, |s| - |l|, l, r);
    r
  }

  /** The stripped text is the infix of `s` from `StripStart(s)` on. */
  lemma StripInfix(s: string)
    ensures Strip(s) == s[StripStart(s)..StripStart(s) + |Strip(s)|]
  {
    var l := StripLeft(s);
    StripLeftSuffix(s);
    SuffixInfix(s, |s| - |l|, l, StripRight(l));
  }

  /** A prefix `r` of the suffix `l` of `s` from `i` on is the infix of `s`
      from `i`, and whatever `l` has after `r` comes after it in `s`. */
  lemma SuffixInfix(s: string, i: nat, l: string, r: string)
    requires i <= |s| && l == s[i..] && |r| <= |l| && r == l[..|r|]
    requires forall k :: |r| <= k < |l| ==> IsSpace(l[k])
    ensures i + |r| <= |s| && r == s[i..i + |r|]
    ensures forall k :: i + |r| <= k < |s| ==> IsSpace(s[k])
  {
    forall k | i + |r| <= k < |s| ensures IsSpace(s[k]) {
      assert s[k] == l[k - i];
    }
  }

  /** Non-empty text that neither starts nor ends with whitespace. */
  predicate Trimmed(s: string) {
    s != [] && !IsSpace(s[0]) && !IsSpace(s[|s| - 1])
  }

  /** Stripping trimmed text leaves it as it is. */
  lemma StripTrimmed(s: string)
    requires Trimmed(s)
    ensures Strip(s) == s
  {
    assert StripLeft(s) == s;
    assert StripRight(s) == s;
  }

  /** Stripping text that is trimmed but for one trailing whitespace character. */
  lemma StripTrailingSpace(s: string, c: char)
    requires Trimmed(s) && IsSpace(c)
    ensures Strip(s + [c]) == s
  {
    var t := s + [c];
    assert StripLeft(t) == t;
    assert t[..|t| - 1] == s;
    assert StripRight(s) == s;
  }

  /** Stripping text that is trimmed but for one leading whitespace character. */
  lemma StripLeadingSpace(c: char, s: string)
    requires Trimmed(s) && IsSpace(c)
    ensures Strip([c] + s) == s
  {
    var t := [c] + s;
    assert t[1..] == s;
    assert StripLeft(s) == s;
    assert StripRight(s) == s;
  }

  lemma {:induction false} NonSpaceStripLeft(s: string)
    ensures NonSpace(StripLeft(s)) == NonSpace(s)
    decreases |s|
  {
    if s != [] && IsSpace(s[0]) {
      NonSpaceStripLeft(s[1..]);
    }
  }

  lemma {:induction false} NonSpaceStripRight(s: string)
    ensures NonSpace(StripRight(s)) == NonSpace(s)
    decreases |s|
  {
    if s != [] && IsSpace(s[|s| - 1]) {
      var init := s[..|s| - 1];
      NonSpaceStripRight(init);
      assert s == init + [s[|s| - 1]];
      NonSpaceAppend(init, [s[|s| - 1]]);
      assert NonSpace([s[|s| - 1]]) == [];
    }
  }

  /** Stripping removes whitespace only. */
  lemma NonSpaceStrip(s: string)
    ensures NonSpace(Strip(s)) == NonSpace(s)
  {
    NonSpaceStripLeft(s);
    NonSpaceStripRight(StripLeft(s));
  }

  /** Stripping leaves nothing exactly when there was nothing but whitespace. */
  lemma StripEmptyIffBlank(s: string)
    ensures Strip(s) == [] <==> IsBlank(s)
  {
    NonSpaceStrip(s);
    NonSpaceEmptyIffBlank(s);
    NonSpaceEmptyIffBlank(Strip(s));
  }

  // ------------------------------------------------------------- collapse

  /** No two whitespace characters stand side by side. */
  predicate NoDoubleSpace(s: string) {
    forall k :: 0 <= k < |s| - 1 ==> !SpacePairAt(s, k)
  }

  /** Whitespace at `k` and at `k + 1`. */
  predicate SpacePairAt(s: string, k: int) {
    0 <= k < |s| - 1 && IsSpace(s[k]) && IsSpace(s[k + 1])
  }

  /** A character in front of text without double whitespace adds none,
      unless both it and the text's first character are whitespace. */
  lemma NoDoubleSpaceCons(c: char, r: string)
    requires NoDoubleSpace(r) && (r != [] && IsSpace(r[0]) ==> !IsSpace(c))
    ensures NoDoubleSpace([c] + r)
  {
    var t := [c] + r;
    forall k ensures !SpacePairAt(t, k) {
      if 1 <= k < |t| - 1 {
        assert t[k] == r[k - 1] && t[k + 1] == r[k];
        assert !SpacePairAt(r, k - 1);
      }
    }
  }

  /** Every whitespace character is a plain space. */
  predicate OnlyPlainSpaces(s: string) {
    forall k :: 0 <= k < |s| ==> IsSpace(s[k]) ==> s[k] == ' '
  }

  /** Python's `re.sub(r'\s+', ' ', s)`: every maximal run of whitespace is
      replaced by a single space. */
  function Collapse(s: string): (r: string)
    ensures OnlyPlainSpaces(r) && NoDoubleSpace(r)
    ensures r == [] <==> s == []
    ensures r != [] ==> (IsSpace(r[0]) <==> IsSpace(s[0]))
    decreases |s|
  {
    if s == [] then []
    else if IsSpace(s[0]) then
      var rest := Collapse(StripLeft(s));
      NoDoubleSpaceCons(' ', rest);
      [' '] + rest
    else
      var rest := Collapse(s[1..]);
      NoDoubleSpaceCons(s[0], rest);
      [s[0]] + rest
  }

  /** Text that is already collapsed is left as it is. */
  lemma {:induction false} CollapseFixes(s: string)
    requires OnlyPlainSpaces(s) && NoDoubleSpace(s)
    ensures Collapse(s) == s
    decreases |s|
  {
    if s != [] {
      InfixKeepsSpacing(s, 1, s[1..]);
      CollapseFixes(s[1..]);
      assert s == [s[0]] + s[1..];
      if IsSpace(s[0]) {
        assert StripLeft(s) == s[1..] by {
          if |s| > 1 {
            assert !SpacePairAt(s, 0);
            assert StripLeft(s[1..]) == s[1..];
          }
        }
        assert s[0] == ' ';
        assert Collapse(s) == [' '] + Collapse(s[1..]);
      } else {
        assert Collapse(s) == [s[0]] + Collapse(s[1..]);
      }
    }
  }

  lemma {:induction false} NonSpaceCollapse(s: string)
    ensures NonSpace(Collapse(s)) == NonSpace(s)
    decreases |s|
  {
    if s != [] {
      if IsSpace(s[0]) {
        var rest := Collapse(StripLeft(s));
        NonSpaceCollapse(StripLeft(s));
        NonSpaceStripLeft(s);
        assert ([' '] + rest)[1..] == rest;
      } else {
        NonSpaceCollapse(s[1..]);
        assert ([s[0]] + Collapse(s[1..]))[1..] == Collapse(s[1..]);
      }
    }
  }

  /** The text cleaning of the OCR step: `re.sub(r'\s+', ' ', s).strip()`. */
  function Normalize(s: string): string {
    Strip(Collapse(s))
  }

  /** Text that neither starts nor ends with whitespace, has no two whitespace
      characters in a row and uses only plain spaces. */
  predicate WellSpaced(s: string) {
    (s == [] || (!IsSpace(s[0]) && !IsSpace(s[|s| - 1]))) &&
    NoDoubleSpace(s) && OnlyPlainSpaces(s)
  }

  lemma NormalizeWellSpaced(s: string)
    ensures WellSpaced(Normalize(s))
  {
    var c := Collapse(s);
    StripInfix(c);
    InfixKeepsSpacing(c, StripStart(c), Strip(c));
  }

  /** A piece of text without double or non-plain whitespace has none either. */
  lemma InfixKeepsSpacing(c: string, i: nat, r: string)
    requires i + |r| <= |c| && r == c[i..i + |r|]
    requires NoDoubleSpace(c) && OnlyPlainSpaces(c)
    ensures NoDoubleSpace(r) && OnlyPlainSpaces(r)
  {
    forall k ensures !SpacePairAt(r, k) {
      if 0 <= k < |r| - 1 {
        assert r[k] == c[i + k] && r[k + 1] == c[i + k + 1];
        assert !SpacePairAt(c, i + k);
      }
    }
    forall k | 0 <= k < |r| ensures IsSpace(r[k]) ==> r[k] == ' ' {
      assert r[k] == c[i + k];
    }
  }

  /** Normalising well-spaced text with one space after it drops the space. */
  lemma NormalizeTrailingSpace(s: string)
    requires s != [] && WellSpaced(s)
    ensures Normalize(s + " ") == s
  {
    var t := s + " ";
    forall k | 0 <= k < |t| ensures IsSpace(t[k]) ==> t[k] == ' ' {
      if k < |s| { assert t[k] == s[k]; }
    }
    forall k ensures !SpacePairAt(t, k) {
      if 0 <= k < |s| - 1 {
        assert t[k] == s[k] && t[k + 1] == s[k + 1];
        assert !SpacePairAt(s, k);
      } else if k == |s| - 1 {
        assert t[k] == s[|s| - 1];
      }
    }
    CollapseFixes(t);
    StripTrailingSpace(s, ' ');
  }

  /** Normalising keeps every non-whitespace character, in order. */
  lemma NormalizeKeepsText(s: string)
    ensures NonSpace(Normalize(s)) == NonSpace(s)
  {
    NonSpaceCollapse(s);
    NonSpaceStrip(Collapse(s));
  }

  lemma NormalizeEmptyIffBlank(s: string)
    ensures Normalize(s) == [] <==> IsBlank(s)
  {
    NormalizeKeepsText(s);
    NonSpaceEmptyIffBlank(s);
    NonSpaceEmptyIffBlank(Normalize(s));
  }

  // ------------------------------------------------ runs and concatenation

  /** Sequence facts stated apart from the recursive functions on strings,
      so that proofs where those functions unfold stay cheap. */
  lemma AppendAssoc<X>(x: seq<X>, y: seq<X>, z: seq<X>)
    ensures x + (y + z) == (x + y) + z
  {
  }

  lemma AppendHeadTail<X>(x: seq<X>, y: seq<X>)
    requires x != []
    ensures (x + y)[0] == x[0] && (x + y)[1..] == x[1..] + y
  {
  }

  lemma BlankAppend(a: string, b: string)
    ensures IsBlank(a + b) <==> IsBlank(a) && IsBlank(b)
  {
    if IsBlank(a + b) {
      forall k | 0 <= k < |b| ensures IsSpace(b[k]) {
        assert b[k] == (a + b)[|a| + k];
      }
      forall k | 0 <= k < |a| ensures IsSpace(a[k]) {
        assert a[k] == (a + b)[k];
      }
    }
    if IsBlank(a) && IsBlank(b) {
      forall k | 0 <= k < |a + b| ensures IsSpace((a + b)[k]) {
        if k < |a| { assert (a + b)[k] == a[k]; } else { assert (a + b)[k] == b[k - |a|]; }
      }
    }
  }

  /** Leading whitespace in front of `b` is all that `StripLeft` removes
      from it. */
  lemma {:induction false} StripLeftBlankPrefix(a: string, b: string)
    requires IsBlank(a)
    ensures StripLeft(a + b) == StripLeft(b)
    decreases |a|
  {
    if a == [] {
      assert a + b == b;
    } else {
      assert (a + b)[0] == a[0] && (a + b)[1..] == a[1..] + b;
      BlankAppend([a[0]], a[1..]);
      assert a == [a[0]] + a[1..];
      StripLeftBlankPrefix(a[1..], b);
    }
  }

  /** Stripping the front of text that is not all whitespace stops inside it. */
  lemma {:induction false} StripLeftNonBlank(a: string, b: string)
    requires !IsBlank(a)
    ensures StripLeft(a + b) == StripLeft(a) + b
    decreases |a|
  {
    assert (a + b)[0] == a[0] && (a + b)[1..] == a[1..] + b;
    if IsSpace(a[0]) {
      BlankAppend([a[0]], a[1..]);
      assert a == [a[0]] + a[1..];
      StripLeftNonBlank(a[1..], b);
    }
  }

  /** Trailing whitespace after `a` is all that `StripRight` removes from it. */
  lemma {:induction false} StripRightBlankSuffix(a: string, b: string)
    requires IsBlank(b)
    ensures StripRight(a + b) == StripRight(a)
    decreases |b|
  {
    if b == [] {
      assert a + b == a;
    } else {
      var init := b[..|b| - 1];
      assert (a + b)[|a + b| - 1] == b[|b| - 1];
      assert (a + b)[..|a + b| - 1] == a + init;
      BlankAppend(init, [b[|b| - 1]]);
      assert b == init + [b[|b| - 1]];
      StripRightBlankSuffix(a, init);
    }
  }

  /** `str.strip` of trimmed text wrapped in whitespace is that text. */
  lemma StripAround(u: string, core: string, v: string)
    requires IsBlank(u) && IsBlank(v) && Trimmed(core)
    ensures Strip(u + core + v) == core
  {
    assert u + core + v == u + (core + v);
    StripLeftBlankPrefix(u, core + v);
    assert (core + v)[0] == core[0];
    assert StripLeft(core + v) == core + v;
    StripRightBlankSuffix(core, v);
    assert StripRight(core) == core;
  }

  /** Every string is its stripped text wrapped in whitespace. */
  lemma StripParts(x: string) returns (u: string, v: string)
    ensures IsBlank(u) && IsBlank(v) && x == u + Strip(x) + v
  {
    var i, r := StripStart(x), Strip(x);
    StripInfix(x);
    u, v := x[..i], x[i + |r|..];
    assert x == u + x[i..i + |r|] + v;
    forall k | 0 <= k < |u| ensures IsSpace(u[k]) {
      assert u[k] == x[k];
    }
    forall k | 0 <= k < |v| ensures IsSpace(v[k]) {
      assert v[k] == x[i + |r| + k];
    }
  }

  /** A whitespace run becomes a single space. */
  lemma CollapseBlank(w: string)
    requires IsBlank(w)
    ensures Collapse(w) == if w == [] then [] else " "
    ensures IsBlank(Collapse(w))
  {
    if w != [] {
      StripLeftBlankPrefix(w, []);
      assert w + [] == w;
      CollapseSpace(w);
      assert IsBlank(" ");
    }
  }

  /** Collapsing works on each side of a boundary that does not fall inside
      a whitespace run. */
  lemma {:induction false} CollapseAppend(a: string, b: string)
    requires a == [] || b == [] || !IsSpace(a[|a| - 1]) || !IsSpace(b[0])
    ensures Collapse(a + b) == Collapse(a) + Collapse(b)
    decreases |a|
  {
    if a == [] {
      assert a + b == b;
    } else if b == [] {
      assert a + b == a;
    } else if !IsSpace(a[0]) {
      CollapseAppend(a[1..], b);
      CollapseAppendChar(a[0], a[1..], b);
      assert a == [a[0]] + a[1..];
    } else if IsBlank(a) {
      CollapseAppendBlank(a, b);
    } else {
      StripLeftOfLeadingSpace(a);
      CollapseAppend(StripLeft(a), b);
      CollapseAppendSpace(a, b);
    }
  }

  /** The step of CollapseAppend where `a` starts with a non-whitespace character. */
  lemma CollapseAppendChar(c: char, t: string, b: string)
    requires !IsSpace(c)
    requires Collapse(t + b) == Collapse(t) + Collapse(b)
    ensures Collapse([c] + t + b) == Collapse([c] + t) + Collapse(b)
  {
    var ct, ctb := [c] + t, [c] + t + b;
    assert ctb[0] == c && ctb[1..] == t + b;
    assert ct[0] == c && ct[1..] == t;
    CollapseChar(ctb);
    CollapseChar(ct);
    AppendAssoc([c], Collapse(t), Collapse(b));
  }

  /** The step of CollapseAppend where `a` is a whitespace run. */
  lemma CollapseAppendBlank(a: string, b: string)
    requires a != [] && IsBlank(a) && b != [] && !IsSpace(b[0])
    ensures Collapse(a + b) == Collapse(a) + Collapse(b)
  {
    assert (a + b)[0] == a[0];
    StripLeftBlankPrefix(a, b);
    assert StripLeft(b) == b;
    CollapseBlank(a);
    assert Collapse(a + b) == [' '] + Collapse(b);
  }

  /** The step of CollapseAppend where `a` starts with whitespace but is not
      all whitespace. */
  lemma CollapseAppendSpace(a: string, b: string)
    requires a != [] && IsSpace(a[0]) && !IsBlank(a)
    requires Collapse(StripLeft(a) + b) == Collapse(StripLeft(a)) + Collapse(b)
    ensures Collapse(a + b) == Collapse(a) + Collapse(b)
  {
    AppendHeadTail(a, b);
    StripLeftNonBlank(a, b);
    CollapseSpace(a + b);
    CollapseSpace(a);
    AppendAssoc([' '], Collapse(StripLeft(a)), Collapse(b));
  }

  /** Collapsing text that starts with a non-whitespace character keeps it. */
  lemma CollapseChar(s: string)
    requires s != [] && !IsSpace(s[0])
    ensures Collapse(s) == [s[0]] + Collapse(s[1..])
  {
  }

  /** Collapsing text that starts with whitespace puts one space for the run. */
  lemma CollapseSpace(s: string)
    requires s != [] && IsSpace(s[0])
    ensures Collapse(s) == [' '] + Collapse(StripLeft(s))
  {
  }

  /** Stripping the front of text that starts with whitespace, but is not all
      whitespace, leaves a shorter text with the same last character. */
  lemma StripLeftOfLeadingSpace(a: string)
    requires a != [] && IsSpace(a[0]) && !IsBlank(a)
    ensures var l := StripLeft(a); |l| < |a| && l != [] && l[|l| - 1] == a[|a| - 1]
  {
    StripLeftSuffix(a);
    StripEmptyIffBlank(a);
    assert StripLeft(a) == StripLeft(a[1..]);
  }

  /** Collapsing trimmed text gives trimmed text. */
  lemma CollapseTrimmed(core: string)
    requires Trimmed(core)
    ensures Trimmed(Collapse(core))
  {
    var c := core[|core| - 1];
    var init := core[..|core| - 1];
    assert core == init + [c];
    CollapseAppend(init, [c]);
    assert [c][1..] == [];
    assert Collapse([c]) == [c];
  }

  /** `re.sub(r'\s+', ' ', _)` replaces a whitespace run between two
      non-whitespace characters by one space, where the run was. */
  lemma CollapseRun(a: string, w: string, b: string)
    requires a != [] && !IsSpace(a[|a| - 1])
    requires w != [] && IsBlank(w)
    requires b != [] && !IsSpace(b[0])
    ensures Collapse(a + w + b) == Collapse(a) + " " + Collapse(b)
  {
    assert a + w + b == a + (w + b);
    CollapseAppend(a, w + b);
    CollapseAppend(w, b);
    CollapseBlank(w);
  }

  /** Collapsing trimmed text wrapped in whitespace collapses each part. */
  lemma CollapseWrapped(u: string, r: string, v: string)
    requires IsBlank(u) && IsBlank(v) && Trimmed(r)
    ensures Collapse(u + r + v) == Collapse(u) + Collapse(r) + Collapse(v)
  {
    assert u + r + v == u + (r + v);
    assert (r + v)[0] == r[0];
    CollapseAppend(u, r + v);
    CollapseAppend(r, v);
  }

  /** Cleaning is collapsing the stripped text. */
  lemma NormalizeIsCollapseOfStrip(x: string)
    ensures Normalize(x) == Collapse(Strip(x))
  {
    StripEmptyIffBlank(x);
    if IsBlank(x) {
      NormalizeEmptyIffBlank(x);
    } else {
      var u, v := StripParts(x);
      var r := Strip(x);
      CollapseBlank(u);
      CollapseBlank(v);
      CollapseTrimmed(r);
      CollapseWrapped(u, r, v);
      StripAround(Collapse(u), Collapse(r), Collapse(v));
    }
  }

  /** Whitespace in front of text is stripped with the text's own. */
  lemma StripAfterBlank(w: string, y: string)
    requires IsBlank(w)
    ensures Strip(w + y) == Strip(y)
  {
    StripLeftBlankPrefix(w, y);
    assert Strip(w + y) == StripRight(StripLeft(w + y));
  }

  /** Whitespace after text is stripped with the text's own. */
  lemma StripBeforeBlank(x: string, w: string)
    requires IsBlank(w)
    ensures Strip(x + w) == Strip(x)
  {
    if IsBlank(x) {
      BlankAppend(x, w);
      StripBlank(x + w);
      StripBlank(x);
    } else {
      StripLeftNonBlank(x, w);
      StripRightBlankSuffix(StripLeft(x), w);
      assert Strip(x + w) == StripRight(StripLeft(x + w));
    }
  }

  /** Whitespace only strips to nothing. */
  lemma StripBlank(w: string)
    requires IsBlank(w)
    ensures Strip(w) == []
  {
    StripLeftBlankPrefix(w, []);
    assert w + [] == w;
  }

  /** Stripping two non-blank pieces joined by a space keeps the whitespace
      between their stripped texts. */
  lemma StripBetween(x: string, y: string) returns (m: string)
    requires !IsBlank(x) && !IsBlank(y)
    ensures m != [] && IsBlank(m)
    ensures Strip(x + " " + y) == Strip(x) + m + Strip(y)
  {
    StripEmptyIffBlank(x);
    StripEmptyIffBlank(y);
    var ux, vx := StripParts(x);
    var uy, vy := StripParts(y);
    var rx, ry := Strip(x), Strip(y);
    m := vx + " " + uy;
    BlankAroundSpace(vx, uy);
    TrimmedAround(rx, m, ry);
    Regroup(ux, rx, vx, " ", uy, ry, vy);
    StripAround(ux, rx + m + ry, vy);
  }

  /** Whitespace, a space and whitespace make a non-empty whitespace run. */
  lemma BlankAroundSpace(v: string, u: string)
    requires IsBlank(v) && IsBlank(u)
    ensures v + " " + u != [] && IsBlank(v + " " + u)
  {
    assert IsBlank(" ");
    BlankAppend(v, " ");
    BlankAppend(v + " ", u);
  }

  /** Trimmed text on both ends makes trimmed text whatever lies between. */
  lemma TrimmedAround(a: string, m: string, b: string)
    requires Trimmed(a) && Trimmed(b)
    ensures Trimmed(a + m + b)
  {
    var c := a + m + b;
    assert c[0] == a[0] && c[|c| - 1] == b[|b| - 1];
  }

  /** Seven pieces regrouped around the middle three. */
  lemma Regroup<X>(a: seq<X>, b: seq<X>, c: seq<X>, d: seq<X>, e: seq<X>, f: seq<X>, g: seq<X>)
    ensures (a + b + c) + d + (e + f + g) == a + (b + (c + d + e) + f) + g
  {
  }

  /** Cleaning two pieces of text with a space between: blank pieces vanish,
      and between two non-blank ones exactly one space stays. */
  lemma NormalizeSpaceJoin(x: string, y: string)
    ensures Normalize(x + " " + y) ==
            if IsBlank(x) then Normalize(y)
            else if IsBlank(y) then Normalize(x)
            else Normalize(x) + " " + Normalize(y)
  {
    if IsBlank(x) {
      NormalizeAfterBlank(x, y);
    } else if IsBlank(y) {
      NormalizeBeforeBlank(x, y);
    } else {
      NormalizeBetween(x, y);
    }
  }

  /** The case of NormalizeSpaceJoin where `x` is blank. */
  lemma NormalizeAfterBlank(x: string, y: string)
    requires IsBlank(x)
    ensures Normalize(x + " " + y) == Normalize(y)
  {
    assert IsBlank(" ");
    BlankAppend(x, " ");
    StripAfterBlank(x + " ", y);
    NormalizeIsCollapseOfStrip(x + " " + y);
    NormalizeIsCollapseOfStrip(y);
  }

  /** The case of NormalizeSpaceJoin where `y` is blank. */
  lemma NormalizeBeforeBlank(x: string, y: string)
    requires IsBlank(y)
    ensures Normalize(x + " " + y) == Normalize(x)
  {
    assert IsBlank(" ");
    BlankAppend(" ", y);
    AppendAssoc(x, " ", y);
    StripBeforeBlank(x, " " + y);
    NormalizeIsCollapseOfStrip(x + " " + y);
    NormalizeIsCollapseOfStrip(x);
  }

  /** The case of NormalizeSpaceJoin where neither side is blank. */
  lemma NormalizeBetween(x: string, y: string)
    requires !IsBlank(x) && !IsBlank(y)
    ensures Normalize(x + " " + y) == Normalize(x) + " " + Normalize(y)
  {
    var m := StripBetween(x, y);
    StripEmptyIffBlank(x);
    StripEmptyIffBlank(y);
    CollapseRun(Strip(x), m, Strip(y));
    NormalizeIsCollapseOfStrip(x + " " + y);
    NormalizeIsCollapseOfStrip(x);
    NormalizeIsCollapseOfStrip(y);
  }

  /** A space after text changes nothing once it is cleaned. */
  lemma NormalizeSpaceAfter(x: string)
    ensures Normalize(x + " ") == Normalize(x)
  {
    NormalizeSpaceJoin(x, "");
    assert x + " " + "" == x + " ";
    assert IsBlank("");
    NormalizeEmptyIffBlank(x);
  }

  // -------------------------------------------------------- find and split

  /** `t` occurs in `s` at position `k`. */
  predicate OccursAt(s: string, t: string, k: int) {
    0 <= k && k + |t| <= |s| && s[k..k + |t|] == t
  }

  /** The leftmost occurrence of `t` in `s`, if any: the search behind
      Python's `t in s` and `s.split(t)`. */
  function IndexOf(s: string, t: string): (r: Option<nat>)
    ensures r.Some? ==> OccursAt(s, t, r.value)
    ensures r.Some? ==> forall k :: 0 <= k < r.value ==> !OccursAt(s, t, k)
    ensures r.None? ==> forall k :: !OccursAt(s, t, k)
    decreases |s|
  {
    if |s| < |t| then None
    else if s[..|t|] == t then Some(0)
    else
      var rest := IndexOf(s[1..], t);
      OccursShift(s, t);
      assert !OccursAt(s, t, 0);
      match rest
      case None => None
      case Some(i) => Some(i + 1)
  }

  lemma OccursShift(s: string, t: string)
    requires s != []
    ensures forall k {:trigger OccursAt(s, t, k)} :: 1 <= k ==> (OccursAt(s, t, k) <==> OccursAt(s[1..], t, k - 1))
  {
    forall k | 1 <= k
      ensures OccursAt(s, t, k) <==> OccursAt(s[1..], t, k - 1)
    {
      if k + |t| <= |s| {
        SliceOfTail(s, k, k + |t|);
      }
    }
  }

  /** A slice of `s[1..]` is the slice of `s` one position further on. */
  lemma SliceOfTail(s: string, i: nat, j: nat)
    requires 1 <= i <= j <= |s|
    ensures s[1..][i - 1..j - 1] == s[i..j]
  {
    forall m | 0 <= m < j - i
      ensures s[1..][i - 1..j - 1][m] == s[i..j][m]
    {
      assert s[1..][i - 1 + m] == s[i + m];
    }
  }

  /** Python's `t in s`. */
  predicate Contains(s: string, t: string) {
    IndexOf(s, t).Some?
  }

  /** Python's `sep.join(parts)`. */
  function Join(parts: seq<string>, sep: string): string {
    if parts == [] then []
    else if |parts| == 1 then parts[0]
    else parts[0] + sep + Join(parts[1..], sep)
  }

  lemma PrefixBeforeFirstOccurrence(s: string, t: string, i: nat)
    requires t != [] && IndexOf(s, t) == Some(i)
    ensures s == s[..i] + t + s[i + |t|..]
    ensures !Contains(s[..i], t)
  {
    assert OccursAt(s, t, i);
    SliceThree(s, i, i + |t|);
    forall k ensures !OccursAt(s[..i], t, k) {
      OccursInPrefix(s, t, i, k);
    }
  }

  /** A sequence is its three slices at `i` and `j`, one after the other. */
  lemma SliceThree<X>(s: seq<X>, i: nat, j: nat)
    requires i <= j <= |s|
    ensures s == s[..i] + s[i..j] + s[j..]
  {
  }

  /** An occurrence inside a prefix is an occurrence in the whole text. */
  lemma OccursInPrefix(s: string, t: string, i: nat, k: int)
    requires i <= |s|
    ensures OccursAt(s[..i], t, k) ==> OccursAt(s, t, k)
  {
    if 0 <= k && k + |t| <= i {
      assert s[..i][k..k + |t|] == s[k..k + |t|];
    }
  }

  /** `t` does not occur across a boundary next to which there is a
      character `t` does not use. */
  lemma NoOccurrenceAcross(a: string, b: string, t: string)
    requires !Contains(a, t) && !Contains(b, t)
    requires a == [] || b == [] || !(a[|a| - 1] in t) || !(b[0] in t)
    ensures !Contains(a + b, t)
  {
    forall k ensures !OccursAt(a + b, t, k) {
      OccursInConcat(a, b, t, k);
    }
  }

  /** Where an occurrence in `a + b` lies: inside `a`, inside `b`, or across
      the boundary, using the characters on both sides of it. */
  lemma OccursInConcat(a: string, b: string, t: string, k: int)
    ensures OccursAt(a + b, t, k) ==>
              OccursAt(a, t, k) || OccursAt(b, t, k - |a|) ||
              (k < |a| < k + |t| && a[|a| - 1] in t && b[0] in t)
  {
    var s, n := a + b, |t|;
    if OccursAt(s, t, k) {
      if k + n <= |a| {
        assert s[k..k + n] == a[k..k + n];
      } else if k >= |a| {
        assert s[k..k + n] == b[k - |a|..k - |a| + n];
      } else {
        assert t[|a| - 1 - k] == s[k..k + n][|a| - 1 - k] == a[|a| - 1];
        assert t[|a| - k] == s[k..k + n][|a| - k] == b[0];
      }
    }
  }

  /** An occurrence in a suffix is an occurrence in the whole text. */
  lemma ContainsInSuffix(p: string, s: string, t: string)
    ensures Contains(s, t) ==> Contains(p + s, t)
  {
    if Contains(s, t) {
      var i := IndexOf(s, t).value;
      assert (p + s)[|p| + i..|p| + i + |t|] == s[i..i + |t|];
      assert OccursAt(p + s, t, |p| + i);
    }
  }

  lemma JoinCons(p: string, rest: seq<string>, sep: string)
    requires rest != []
    ensures Join([p] + rest, sep) == p + sep + Join(rest, sep)
  {
    assert ([p] + rest)[1..] == rest;
  }

  lemma {:induction false} JoinSnoc(parts: seq<string>, x: string, sep: string)
    requires parts != []
    ensures Join(parts + [x], sep) == Join(parts, sep) + sep + x
  {
    var all := parts + [x];
    assert all[0] == parts[0] && all[1..] == parts[1..] + [x];
    if |parts| > 1 {
      JoinSnoc(parts[1..], x, sep);
    } else {
      assert all[1..] == [x];
    }
  }

  /** Joining non-empty strings gives the empty string only for no strings. */
  lemma JoinEmpty(parts: seq<string>, sep: string)
    requires forall i :: 0 <= i < |parts| ==> parts[i] != []
    ensures Join(parts, sep) == [] <==> parts == []
  {
    if |parts| > 1 {
      assert |Join(parts, sep)| >= |parts[0]|;
    }
  }

  /** Python's `s.split(sep)` for a non-empty separator: the pieces between the
      leftmost non-overlapping occurrences of `sep`. The contract below pins
      the cuts down for separators that cannot overlap themselves, as both
      separators the backend uses, "答案：" and "\n", cannot. */
  function Split(s: string, sep: string): (parts: seq<string>)
    requires sep != []
    ensures |parts| >= 1
    ensures Join(parts, sep) == s
    ensures forall i :: 0 <= i < |parts| ==> !Contains(parts[i], sep)
    ensures |parts| == 1 <==> !Contains(s, sep)
    decreases |s|
  {
    match IndexOf(s, sep)
    case None => [s]
    case Some(i) =>
      var rest := Split(s[i + |sep|..], sep);
      PrefixBeforeFirstOccurrence(s, sep, i);
      JoinCons(s[..i], rest, sep);
      [s[..i]] + rest
  }

  // -------------------------------------------------------------- numbers

  function DigitChar(d: nat): (c: char)
    requires d < 10
    ensures IsDigit(c)
  {
    (48 + d) as char
  }

  function DigitValue(c: char): nat
    requires IsDigit(c)
  {
    c as int - 48
  }

  predicate AllDigits(s: string) {
    forall k :: 0 <= k < |s| ==> IsDigit(s[k])
  }

  /** The number a string of decimal digits denotes (Python's `int(s)`). */
  function DecimalValue(s: string): nat
    requires AllDigits(s)
  {
    if s == [] then 0 else DecimalValue(s[..|s| - 1]) * 10 + DigitValue(s[|s| - 1])
  }

  /** Python's `str(n)` for a natural number: its decimal digits, without
      leading zeros. */
  function DecimalString(n: nat): (r: string)
    ensures r != [] && AllDigits(r)
    ensures r[0] == '0' ==> n == 0
  {
    if n < 10 then [DigitChar(n)] else DecimalString(n / 10) + [DigitChar(n % 10)]
  }

  /** Reading back the digits of `str(n)` gives `n`. */
  lemma {:induction false} DecimalRoundTrip(n: nat)
    ensures DecimalValue(DecimalString(n)) == n
  {
    if n >= 10 {
      DecimalRoundTrip(n / 10);
      var r := DecimalString(n);
      assert r[..|r| - 1] == DecimalString(n / 10);
    }
  }
}
