/** The answer parsing of `solve_math_problem`: the model's reply is cut into
    numbered steps and a final answer at the marker "答案：", or, without the
    marker, into its non-blank lines with a fallback answer. */
module AnswerParser {
  import opened Text

  /** The literal the system prompt asks the model to put before its answer. */
  const Marker: string := "答案："

  /** The answer reported when the reply has no marker. */
  const NotFound: string := "未找到答案"

  datatype Reply = Reply(steps: seq<string>, answer: string)

  // ------------------------------------------------ re.split(r'\n\d+\.', s)

  /** The number of decimal digits `s` starts with. */
  function DigitRun(s: string): (k: nat)
    ensures k <= |s| && AllDigits(s[..k])
    ensures k < |s| ==> !IsDigit(s[k])
  {
    if s != [] && IsDigit(s[0]) then 1 + DigitRun(s[1..]) else 0
  }

  /** The length of the match of `\n\d+\.` at the very start of `s`, or 0 when
      `s` does not start with one. */
  function BreakAt(s: string): (n: nat)
    ensures n == 0 || 3 <= n <= |s|
    ensures n > 0 ==> s[0] == '\n' && AllDigits(s[1..n - 1]) && s[n - 1] == '.'
  {
    if s != [] && s[0] == '\n' then
      var k := DigitRun(s[1..]);
      if 0 < k && k + 1 < |s| && s[k + 1] == '.' then
        assert s[1..k + 1] == s[1..][..k];
        k + 2
      else 0
    else 0
  }

  /** Every match of `\n\d+\.` at the start of `s` is found, with all of its
      digits. */
  lemma BreakAtMatch(digits: string, b: string)
    requires digits != [] && AllDigits(digits)
    ensures BreakAt("\n" + digits + "." + b) == |digits| + 2
  {
    var s := "\n" + digits + "." + b;
    assert s[1..] == digits + ("." + b);
    DigitRunBeforeNonDigit(digits, "." + b);
    DigitRunAllDigits(digits);
    assert s[|digits| + 1] == '.';
  }

  /** `s` contains a step break: a newline, digits, a period. */
  predicate HasBreak(s: string) {
    exists j :: 0 <= j < |s| && BreakAt(s[j..]) > 0
  }

  lemma {:induction false} DigitRunPrefix(p: string, s: string)
    requires p <= s && DigitRun(p) < |p|
    ensures DigitRun(s) == DigitRun(p)
  {
    assert s[0] == p[0];
    if IsDigit(p[0]) {
      assert p[1..] <= s[1..];
      DigitRunPrefix(p[1..], s[1..]);
    }
  }

  /** A break at the start of a prefix is a break at the start of the whole. */
  lemma BreakAtPrefix(p: string, s: string)
    requires p <= s && BreakAt(p) > 0
    ensures BreakAt(s) == BreakAt(p)
  {
    assert s[0] == p[0];
    assert p[1..] <= s[1..];
    DigitRunPrefix(p[1..], s[1..]);
    assert s[DigitRun(p[1..]) + 1] == p[DigitRun(p[1..]) + 1];
  }

  /** A string without a break has none in any of its infixes. */
  lemma InfixNoBreak(p: string, i: nat, q: string)
    requires i + |q| <= |p| && q == p[i..i + |q|] && !HasBreak(p)
    ensures !HasBreak(q)
  {
    forall j | 0 <= j < |q| ensures BreakAt(q[j..]) == 0 {
      assert q[j..] <= p[i + j..];
      if BreakAt(q[j..]) > 0 {
        BreakAtPrefix(q[j..], p[i + j..]);
      }
    }
  }

  lemma {:induction false} DigitRunBeforeNonDigit(x: string, c: string)
    requires c != [] && !IsDigit(c[0])
    ensures DigitRun(x + c) == DigitRun(x)
  {
    if x != [] {
      assert (x + c)[0] == x[0];
      assert (x + c)[1..] == x[1..] + c;
      DigitRunBeforeNonDigit(x[1..], c);
    } else {
      assert x + c == c;
    }
  }

  /** A break cannot run into a following newline. */
  lemma BreakAtBeforeNewline(a: string, c: string)
    requires a != [] && c != [] && c[0] == '\n'
    ensures BreakAt(a + c) == BreakAt(a)
  {
    assert (a + c)[0] == a[0];
    assert (a + c)[1..] == a[1..] + c;
    DigitRunBeforeNonDigit(a[1..], c);
    var k := DigitRun(a[1..]);
    if k + 1 < |a| {
      assert (a + c)[k + 1] == a[k + 1];
    } else if k + 1 == |a| {
      assert (a + c)[k + 1] == c[0];
    }
  }

  /** Python's `re.split(r'\n\d+\.', s)` (digits being ASCII digits): the
      pieces between the leftmost non-overlapping step breaks. */
  function SplitAtBreaks(s: string): (parts: seq<string>)
    ensures |parts| >= 1
    decreases |s|
  {
    if s == [] then [[]]
    else if BreakAt(s) > 0 then [[]] + SplitAtBreaks(s[BreakAt(s)..])
    else
      var rest := SplitAtBreaks(s[1..]);
      [[s[0]] + rest[0]] + rest[1..]
  }

  lemma {:induction false} SplitAtBreaksPrefix(s: string)
    ensures SplitAtBreaks(s)[0] <= s
    decreases |s|
  {
    if s != [] && BreakAt(s) == 0 {
      SplitAtBreaksPrefix(s[1..]);
    }
  }

  /** Every break is cut out: no piece contains one. */
  lemma {:induction false} SplitAtBreaksNoBreak(s: string)
    ensures forall i :: 0 <= i < |SplitAtBreaks(s)| ==> !HasBreak(SplitAtBreaks(s)[i])
    decreases |s|
  {
    if s != [] {
      if BreakAt(s) > 0 {
        SplitAtBreaksNoBreak(s[BreakAt(s)..]);
      } else {
        SplitAtBreaksNoBreak(s[1..]);
        var rest := SplitAtBreaks(s[1..]);
        var first := [s[0]] + rest[0];
        SplitAtBreaksPrefix(s[1..]);
        assert first <= s;
        forall j | 0 <= j < |first| ensures BreakAt(first[j..]) == 0 {
          if j == 0 {
            if BreakAt(first) > 0 {
              BreakAtPrefix(first, s);
            }
          } else {
            assert first[j..] == rest[0][j - 1..];
          }
        }
      }
    }
  }

  /** Text without a newline is a single piece. */
  lemma {:induction false} SplitAtBreaksNoNewline(s: string)
    requires forall j :: 0 <= j < |s| ==> s[j] != '\n'
    ensures SplitAtBreaks(s) == [s]
  {
    if s != [] {
      SplitAtBreaksNoNewline(s[1..]);
      assert [s[0]] + s[1..] == s;
    }
  }

  /** Text without a break is a single piece, newlines and all. With
      SplitAtBreaksAppend and SplitAtLeadingBreak this fixes the pieces of
      every text. */
  lemma {:induction false} SplitAtBreaksWhole(s: string)
    requires !HasBreak(s)
    ensures SplitAtBreaks(s) == [s]
    decreases |s|
  {
    if s != [] {
      assert s[0..] == s;
      assert BreakAt(s) == 0;
      InfixNoBreak(s, 1, s[1..]);
      SplitAtBreaksWhole(s[1..]);
      SplitAtBreaksUnfoldChar(s);
      assert [s[0]] + s[1..] == s;
    }
  }

  /** A string that starts with a break loses it and splits the rest. */
  lemma SplitAtLeadingBreak(digits: string, b: string)
    requires digits != [] && AllDigits(digits)
    ensures SplitAtBreaks("\n" + digits + "." + b) == [[]] + SplitAtBreaks(b)
  {
    var s := "\n" + digits + "." + b;
    BreakAtMatch(digits, b);
    assert s[|digits| + 2..] == b;
  }

  lemma SplitAtBreaksUnfoldBreak(s: string)
    requires s != [] && BreakAt(s) > 0
    ensures SplitAtBreaks(s) == [[]] + SplitAtBreaks(s[BreakAt(s)..])
  {
  }

  lemma SplitAtBreaksUnfoldChar(s: string)
    requires s != [] && BreakAt(s) == 0
    ensures SplitAtBreaks(s) == [[s[0]] + SplitAtBreaks(s[1..])[0]] + SplitAtBreaks(s[1..])[1..]
  {
  }

  /** The step of SplitAtBreaksAppend where `s` starts with a break. */
  lemma SplitAtBreaksCons(a: string, s: string, sb: seq<string>)
    requires a != [] && BreakAt(a) > 0 && BreakAt(s) == BreakAt(a) && BreakAt(a) <= |s|
    requires SplitAtBreaks(s[BreakAt(a)..]) == SplitAtBreaks(a[BreakAt(a)..]) + sb
    ensures SplitAtBreaks(s) == SplitAtBreaks(a) + sb
  {
    SplitAtBreaksUnfoldBreak(s);
    SplitAtBreaksUnfoldBreak(a);
    AppendAssoc([[]], SplitAtBreaks(a[BreakAt(a)..]), sb);
  }

  /** The step of SplitAtBreaksAppend where `s` starts with an ordinary character. */
  lemma SplitAtBreaksSnoc(a: string, s: string, sb: seq<string>)
    requires a != [] && s != [] && BreakAt(a) == 0 && BreakAt(s) == 0 && s[0] == a[0]
    requires SplitAtBreaks(s[1..]) == SplitAtBreaks(a[1..]) + sb
    ensures SplitAtBreaks(s) == SplitAtBreaks(a) + sb
  {
    SplitAtBreaksUnfoldChar(s);
    SplitAtBreaksUnfoldChar(a);
    var sa := SplitAtBreaks(a[1..]);
    AppendHeadTail(sa, sb);
    AppendAssoc([[a[0]] + sa[0]], sa[1..], sb);
  }

  /** Splitting around one break is splitting each side. */
  lemma {:induction false} SplitAtBreaksAppend(a: string, digits: string, b: string)
    requires digits != [] && AllDigits(digits)
    ensures SplitAtBreaks(a + "\n" + digits + "." + b) == SplitAtBreaks(a) + SplitAtBreaks(b)
    decreases |a|
  {
    var tail := "\n" + digits + "." + b;
    var s := a + tail;
    assert a + "\n" + digits + "." + b == s;
    if a == [] {
      assert s == tail;
      SplitAtLeadingBreak(digits, b);
    } else {
      BreakAtBeforeNewline(a, tail);
      var n := BreakAt(a);
      if n > 0 {
        assert s[n..] == a[n..] + "\n" + digits + "." + b;
        SplitAtBreaksAppend(a[n..], digits, b);
        SplitAtBreaksCons(a, s, SplitAtBreaks(b));
      } else {
        assert s[1..] == a[1..] + "\n" + digits + "." + b;
        SplitAtBreaksAppend(a[1..], digits, b);
        SplitAtBreaksSnoc(a, s, SplitAtBreaks(b));
      }
    }
  }

  lemma {:induction false} DigitRunAllDigits(d: string)
    requires AllDigits(d)
    ensures DigitRun(d) == |d|
  {
    if d != [] {
      DigitRunAllDigits(d[1..]);
    }
  }

  // ------------------------------------------------- blank-line filtering

  /** `[p.strip() for p in parts if p.strip()]`. */
  function NonBlankStripped(parts: seq<string>): (steps: seq<string>)
    ensures |steps| <= |parts|
    ensures forall i :: 0 <= i < |steps| ==> Trimmed(steps[i])
  {
    if parts == [] then []
    else
      var rest := NonBlankStripped(parts[1..]);
      if Strip(parts[0]) == [] then rest
      else
        assert forall i :: 1 <= i < |rest| + 1 ==> ([Strip(parts[0])] + rest)[i] == rest[i - 1];
        [Strip(parts[0])] + rest
  }

  /** The strings one after the other. */
  function Concat(ss: seq<string>): string {
    if ss == [] then [] else ss[0] + Concat(ss[1..])
  }

  /** Dropping blank pieces and stripping the rest loses only whitespace. */
  lemma {:induction false} NonBlankStrippedKeepsText(parts: seq<string>)
    ensures NonSpace(Concat(NonBlankStripped(parts))) == NonSpace(Concat(parts))
  {
    if parts != [] {
      var p := parts[0];
      NonBlankStrippedKeepsText(parts[1..]);
      NonSpaceAppend(p, Concat(parts[1..]));
      NonSpaceStrip(p);
      if Strip(p) == [] {
        assert NonSpace(p) == NonSpace([]);
      } else {
        var rest := NonBlankStripped(parts[1..]);
        assert ([Strip(p)] + rest)[1..] == rest;
        NonSpaceAppend(Strip(p), Concat(rest));
      }
    }
  }

  /** A character missing from every piece is missing from every step. */
  lemma {:induction false} NonBlankStrippedLacks(parts: seq<string>, c: char)
    requires forall i, j :: 0 <= i < |parts| && 0 <= j < |parts[i]| ==> parts[i][j] != c
    ensures forall i, j :: 0 <= i < |NonBlankStripped(parts)| && 0 <= j < |NonBlankStripped(parts)[i]| ==>
              NonBlankStripped(parts)[i][j] != c
  {
    if parts != [] {
      NonBlankStrippedLacks(parts[1..], c);
      var p := parts[0];
      var q := Strip(p);
      StripInfix(p);
      assert forall j :: 0 <= j < |q| ==> q[j] != c by {
        forall j | 0 <= j < |q| ensures q[j] != c {
          assert q[j] == p[StripStart(p) + j];
        }
      }
      var rest := NonBlankStripped(parts[1..]);
      if q != [] {
        var r := [q] + rest;
        assert NonBlankStripped(parts) == r;
        forall i, j | 0 <= i < |r| && 0 <= j < |r[i]| ensures r[i][j] != c {
          if i > 0 { assert r[i] == rest[i - 1]; }
        }
      }
    }
  }

  // ------------------------------------------------------------ numbering

  /** The text `f"{n}. "` puts in front of a step. */
  function StepLabel(n: nat): string {
    DecimalString(n) + ". "
  }

  /** The steps after `steps[i] = f"{i+1}. {steps[i]}"` for every `i`. */
  function Numbered(frags: seq<string>): (steps: seq<string>)
    ensures |steps| == |frags|
  {
    seq(|frags|, i requires 0 <= i < |frags| => StepLabel(i + 1) + frags[i])
  }

  /** Reads the number and the text of a step written as "<digits>. <text>". */
  function ReadStepNumber(s: string): Option<(nat, string)> {
    var k := DigitRun(s);
    if 0 < k && k + 2 <= |s| && s[k..k + 2] == ". " then Some((DecimalValue(s[..k]), s[k + 2..]))
    else None
  }

  /** The label of a step reads back as its position, counted from 1, and the
      rest of the step is the fragment. */
  lemma NumberedReadsBack(frags: seq<string>, i: nat)
    requires i < |frags|
    ensures ReadStepNumber(Numbered(frags)[i]) == Some((i + 1, frags[i]))
  {
    var d := DecimalString(i + 1);
    var s := Numbered(frags)[i];
    assert s == d + (". " + frags[i]);
    DigitRunBeforeNonDigit(d, ". " + frags[i]);
    DigitRunAllDigits(d);
    assert s[..|d|] == d;
    assert s[|d|..|d| + 2] == ". ";
    assert s[|d| + 2..] == frags[i];
    DecimalRoundTrip(i + 1);
  }

  // -------------------------------------------------------------- parsing

  /** The structured solution `solve_math_problem` builds from a reply. */
  function Parsed(content: string): Reply {
    if Contains(content, Marker) then
      var parts := Split(content, Marker);
      Reply(Numbered(NonBlankStripped(SplitAtBreaks(Strip(parts[0])))), Strip(parts[1]))
    else
      Reply(NonBlankStripped(Split(content, "\n")), NotFound)
  }

  /** The renumbering loop: `for i in range(len(steps)): steps[i] =
      f"{i+1}. {steps[i]}"`. */
  method Renumber(frags: seq<string>) returns (steps: seq<string>)
    ensures steps == Numbered(frags)
  {
    steps := frags;
    for i := 0 to |steps|
      invariant |steps| == |frags|
      invariant forall k :: 0 <= k < i ==> steps[k] == StepLabel(k + 1) + frags[k]
      invariant forall k :: i <= k < |steps| ==> steps[k] == frags[k]
    {
      steps := steps[i := StepLabel(i + 1) + steps[i]];
    }
  }

  /** Lines 206-221 of `solve_math_problem`. */
  method ParseReply(content: string) returns (steps: seq<string>, answer: string)
    ensures Reply(steps, answer) == Parsed(content)
  {
    answer := NotFound;
    steps := [];
    if Contains(content, Marker) {
      var parts := Split(content, Marker);
      var stepsContent := Strip(parts[0]);
      answer := Strip(parts[1]);
      steps := NonBlankStripped(SplitAtBreaks(stepsContent));
      steps := Renumber(steps);
    } else {
      steps := Split(content, "\n");
      steps := NonBlankStripped(steps);
    }
  }

  // ---------------------------------------------------------- properties

  /** The separator starts with a character it does not repeat, so no
      occurrence can overlap the first one. */
  predicate HeadUnique(t: string) {
    t != [] && forall i :: 1 <= i < |t| ==> t[i] != t[0]
  }

  lemma FirstOccurrence(a: string, t: string, x: string)
    requires HeadUnique(t) && !Contains(a, t)
    ensures IndexOf(a + t + x, t) == Some(|a|)
  {
    var s := a + t + x;
    assert s[|a|..|a| + |t|] == t;
    assert OccursAt(s, t, |a|);
    forall k | 0 <= k < |a| ensures !OccursAt(s, t, k) {
      if k + |t| <= |a| {
        assert s[k..k + |t|] == a[k..k + |t|];
        assert !OccursAt(a, t, k);
      } else {
        assert s[|a|] == t[0];
      }
    }
  }

  /** Python's `(a + t + b).split(t)` when `a` does not contain `t`. */
  lemma SplitFirst(a: string, t: string, b: string)
    requires HeadUnique(t) && !Contains(a, t)
    ensures Split(a + t + b, t) == [a] + Split(b, t)
  {
    FirstOccurrence(a, t, b);
    var s := a + t + b;
    assert s[..|a|] == a;
    assert s[|a| + |t|..] == b;
  }

  lemma NoHeadNoOccurrence(a: string, t: string)
    requires t != [] && forall j :: 0 <= j < |a| ==> a[j] != t[0]
    ensures !Contains(a, t)
  {
    forall k ensures !OccursAt(a, t, k) {
      if 0 <= k && k + |t| <= |a| {
        assert a[k..k + |t|][0] == a[k];
      }
    }
  }

  /** With the marker: the steps come from the text before the first marker
      and the answer is the trimmed text between the first and the second. */
  lemma ParsedWithMarker(a: string, b: string)
    requires !Contains(a, Marker) && !Contains(b, Marker)
    ensures Parsed(a + Marker + b) ==
            Reply(Numbered(NonBlankStripped(SplitAtBreaks(Strip(a)))), Strip(b))
  {
    SplitFirst(a, Marker, b);
    FirstOccurrence(a, Marker, b);
    assert Split(b, Marker) == [b];
  }

  /** Whatever follows a second marker is dropped: it reaches neither the steps
      nor the answer. */
  lemma ParsedIgnoresAfterSecondMarker(a: string, b: string, c: string)
    requires !Contains(a, Marker) && !Contains(b, Marker)
    ensures Parsed(a + Marker + b + Marker + c) == Parsed(a + Marker + b)
  {
    var s := a + Marker + (b + Marker + c);
    assert a + Marker + b + Marker + c == s;
    SplitFirst(a, Marker, b + Marker + c);
    SplitFirst(b, Marker, c);
    var parts := Split(s, Marker);
    assert parts[0] == a && parts[1] == b;
    FirstOccurrence(a, Marker, b + Marker + c);
    assert Contains(s, Marker);
    assert Parsed(s) == Reply(Numbered(NonBlankStripped(SplitAtBreaks(Strip(a)))), Strip(b));
    ParsedWithMarker(a, b);
  }

  /** With the marker, step i (from 0) reads as number i + 1 followed by a
      non-empty trimmed fragment without a step break. */
  lemma MarkerStepsNumbered(content: string, i: nat)
    requires Contains(content, Marker) && i < |Parsed(content).steps|
    ensures ReadStepNumber(Parsed(content).steps[i]).Some?
    ensures ReadStepNumber(Parsed(content).steps[i]).value.0 == i + 1
    ensures Trimmed(ReadStepNumber(Parsed(content).steps[i]).value.1)
    ensures !HasBreak(ReadStepNumber(Parsed(content).steps[i]).value.1)
  {
    var block := Strip(Split(content, Marker)[0]);
    var frags := NonBlankStripped(SplitAtBreaks(block));
    assert Parsed(content).steps == Numbered(frags);
    FragmentsWellFormed(block);
    NumberedReadsBack(frags, i);
  }

  /** Every fragment of a block is non-empty, trimmed and free of step breaks. */
  lemma FragmentsWellFormed(block: string)
    ensures forall k :: 0 <= k < |NonBlankStripped(SplitAtBreaks(block))| ==>
              Trimmed(NonBlankStripped(SplitAtBreaks(block))[k]) &&
              !HasBreak(NonBlankStripped(SplitAtBreaks(block))[k])
  {
    SplitAtBreaksNoBreak(block);
    NonBlankStrippedNoBreak(SplitAtBreaks(block));
  }

  lemma {:induction false} NonBlankStrippedNoBreak(parts: seq<string>)
    requires forall i :: 0 <= i < |parts| ==> !HasBreak(parts[i])
    ensures forall i :: 0 <= i < |NonBlankStripped(parts)| ==> !HasBreak(NonBlankStripped(parts)[i])
  {
    if parts != [] {
      var rest := NonBlankStripped(parts[1..]);
      NonBlankStrippedNoBreak(parts[1..]);
      var q := Strip(parts[0]);
      if q != [] {
        StripInfix(parts[0]);
        InfixNoBreak(parts[0], StripStart(parts[0]), q);
        var r := [q] + rest;
        assert NonBlankStripped(parts) == r;
        forall i | 0 <= i < |r| ensures !HasBreak(r[i]) {
          if i > 0 { assert r[i] == rest[i - 1]; }
        }
      }
    }
  }

  /** Python's `"\n".join(parts)` has the non-whitespace of the parts. */
  lemma {:induction false} JoinNewlineNonSpace(parts: seq<string>)
    ensures NonSpace(Join(parts, "\n")) == NonSpace(Concat(parts))
  {
    if |parts| == 1 {
      assert parts[1..] == [];
      assert Concat(parts) == parts[0] + Concat([]);
      assert Concat(parts) == parts[0];
    } else if |parts| > 1 {
      JoinNewlineNonSpace(parts[1..]);
      NonSpaceAppend(parts[0] + "\n", Join(parts[1..], "\n"));
      NonSpaceAppend(parts[0], "\n");
      NonSpaceAppend(parts[0], Concat(parts[1..]));
      assert NonSpace("\n") == [];
    }
  }

  /** Without the marker: the answer is the fallback, every step is a
      non-empty trimmed line without a newline, and the steps hold all the
      reply's non-whitespace characters in their original order. */
  lemma ParsedWithoutMarker(content: string)
    requires !Contains(content, Marker)
    ensures Parsed(content).answer == NotFound
    ensures forall i, j :: 0 <= i < |Parsed(content).steps| && 0 <= j < |Parsed(content).steps[i]| ==>
              Parsed(content).steps[i][j] != '\n'
    ensures forall i :: 0 <= i < |Parsed(content).steps| ==> Trimmed(Parsed(content).steps[i])
    ensures NonSpace(Concat(Parsed(content).steps)) == NonSpace(content)
  {
    var parts := Split(content, "\n");
    forall i, j | 0 <= i < |parts| && 0 <= j < |parts[i]| ensures parts[i][j] != '\n' {
      if parts[i][j] == '\n' {
        assert OccursAt(parts[i], "\n", j);
      }
    }
    NonBlankStrippedLacks(parts, '\n');
    NonBlankStrippedKeepsText(parts);
    JoinNewlineNonSpace(parts);
  }

  /** The filter works piece by piece: filtering two lists one after the
      other is filtering each. */
  lemma {:induction false} NonBlankStrippedAppend(a: seq<string>, b: seq<string>)
    ensures NonBlankStripped(a + b) == NonBlankStripped(a) + NonBlankStripped(b)
  {
    if a == [] {
      assert a + b == b;
    } else {
      assert (a + b)[0] == a[0] && (a + b)[1..] == a[1..] + b;
      NonBlankStrippedAppend(a[1..], b);
    }
  }

  /** One piece: dropped when blank, otherwise kept stripped. */
  lemma NonBlankStrippedSingle(p: string)
    ensures NonBlankStripped([p]) == if IsBlank(p) then [] else [Strip(p)]
  {
    StripEmptyIffBlank(p);
    assert [p][1..] == [];
  }

  /** Without the marker, a reply of one line gives that line, stripped, as
      its only step, or no step when the line is blank. */
  lemma ParsedOneLine(x: string)
    requires forall j :: 0 <= j < |x| ==> x[j] != '\n'
    requires !Contains(x, Marker)
    ensures Parsed(x) == Reply(if IsBlank(x) then [] else [Strip(x)], NotFound)
  {
    NoHeadNoOccurrence(x, "\n");
    var parts := Split(x, "\n");
    assert |parts| == 1;
    assert parts == [x];
    NonBlankStrippedSingle(x);
  }

  /** Without the marker, the first line of a reply gives the first step,
      stripped, or no step when it is blank; the other lines give the rest.
      With ParsedOneLine this fixes the steps of every reply without the
      marker: its lines, stripped, blank ones dropped, in order. */
  lemma ParsedLineCons(x: string, r: string)
    requires forall j :: 0 <= j < |x| ==> x[j] != '\n'
    requires !Contains(x + "\n" + r, Marker)
    ensures !Contains(r, Marker)
    ensures Parsed(x + "\n" + r) ==
            Reply((if IsBlank(x) then [] else [Strip(x)]) + Parsed(r).steps, NotFound)
  {
    ContainsInSuffix(x + "\n", r, Marker);
    assert x + "\n" + r == (x + "\n") + r;
    NoHeadNoOccurrence(x, "\n");
    SplitFirst(x, "\n", r);
    NonBlankStrippedAppend([x], Split(r, "\n"));
    NonBlankStrippedSingle(x);
  }

  /** An empty reply has no steps and the fallback answer. */
  lemma ParsedEmpty()
    ensures Parsed("") == Reply([], NotFound)
  {
    assert !Contains("", Marker);
    assert Split("", "\n") == [""];
    assert Strip("") == "";
  }

  /** Pieces that are already trimmed pass through unchanged. */
  lemma {:induction false} NonBlankStrippedTrimmed(parts: seq<string>)
    requires forall i :: 0 <= i < |parts| ==> Trimmed(parts[i])
    ensures NonBlankStripped(parts) == parts
  {
    if parts != [] {
      StripTrimmed(parts[0]);
      NonBlankStrippedTrimmed(parts[1..]);
      assert [parts[0]] + parts[1..] == parts;
    }
  }

  /** Text without a newline. */
  predicate OneLine(s: string) {
    forall j :: 0 <= j < |s| ==> s[j] != '\n'
  }

  /** Two lines without the marker make a reply without the marker. */
  lemma LinesLackMarker(x: string, y: string)
    requires !Contains(x, Marker) && !Contains(y, Marker)
    ensures !Contains(x + "\n" + y, Marker)
  {
    assert !Contains("\n", Marker);
    NoOccurrenceAcross(x, "\n", Marker);
    NoOccurrenceAcross(x + "\n", y, Marker);
  }

  /** A reply of two trimmed lines without the marker: the lines become the
      steps, unnumbered, and the answer is the fallback. */
  lemma ParsedTwoLines(x: string, y: string)
    requires Trimmed(x) && Trimmed(y) && OneLine(x) && OneLine(y)
    requires !Contains(x, Marker) && !Contains(y, Marker)
    ensures Parsed(x + "\n" + y) == Reply([x, y], NotFound)
  {
    StripTrimmed(x);
    StripTrimmed(y);
    StripEmptyIffBlank(x);
    StripEmptyIffBlank(y);
    LinesLackMarker(x, y);
    ParsedOneLine(y);
    assert Parsed(y).steps == [y];
    ParsedLineCons(x, y);
    assert [x] + [y] == [x, y];
  }

  // The text `1. x`, newline, `2. y`, newline, taken apart step by step.

  lemma StripTwoStepBlock(x: string, y: string)
    requires Trimmed(x) && Trimmed(y)
    ensures Strip("1. " + x + "\n2. " + y + "\n") == "1. " + x + "\n" + "2" + "." + " " + y
  {
    var one, two := "1. " + x, " " + y;
    var block := one + "\n" + "2" + "." + two;
    assert "1. " + x + "\n2. " + y + "\n" == block + "\n";
    assert Trimmed(block) by {
      assert block[0] == '1';
      assert block[|block| - 1] == y[|y| - 1];
    }
    StripTrailingSpace(block, '\n');
  }

  lemma SplitTwoStepBlock(x: string, y: string)
    requires OneLine(x) && OneLine(y)
    ensures SplitAtBreaks("1. " + x + "\n" + "2" + "." + " " + y) == ["1. " + x, " " + y]
  {
    var one, two := "1. " + x, " " + y;
    SplitAtBreaksAppend(one, "2", two);
    assert OneLine(one) by {
      forall j | 0 <= j < |one| ensures one[j] != '\n' {
        if j >= 3 { assert one[j] == x[j - 3]; }
      }
    }
    SplitAtBreaksNoNewline(one);
    assert OneLine(two) by {
      forall j | 0 <= j < |two| ensures two[j] != '\n' {
        if j >= 1 { assert two[j] == y[j - 1]; }
      }
    }
    SplitAtBreaksNoNewline(two);
    assert "1. " + x + "\n" + "2" + "." + " " + y == one + "\n" + "2" + "." + two;
    assert [one] + [two] == [one, two];
  }

  lemma StripTwoStepPieces(x: string, y: string)
    requires Trimmed(x) && Trimmed(y)
    ensures NonBlankStripped(["1. " + x, " " + y]) == ["1. " + x, y]
  {
    var one, two := "1. " + x, " " + y;
    assert one[0] == '1' && one[|one| - 1] == x[|x| - 1];
    StripTrimmed(one);
    assert two == [' '] + y;
    StripLeadingSpace(' ', y);
    var pieces := [one, two];
    assert pieces[1..] == [two];
    assert [two][1..] == [];
    assert NonBlankStripped([two]) == [y];
  }

  /** The step fragments of the text `1. x`, newline, `2. y`, newline: the
      first keeps its number, the second loses it. */
  lemma TwoStepFragments(x: string, y: string)
    requires Trimmed(x) && Trimmed(y) && OneLine(x) && OneLine(y)
    ensures NonBlankStripped(SplitAtBreaks(Strip("1. " + x + "\n2. " + y + "\n"))) == ["1. " + x, y]
  {
    StripTwoStepBlock(x, y);
    SplitTwoStepBlock(x, y);
    StripTwoStepPieces(x, y);
  }

  lemma TwoStepBlockLacksMarker(x: string, y: string)
    requires x != [] && y != []
    requires !Contains(x, Marker) && !Contains(y, Marker)
    ensures !Contains("1. " + x + "\n2. " + y + "\n", Marker)
  {
    assert !Contains("\n", Marker);
    NoHeadNoOccurrence("1. ", Marker);
    NoHeadNoOccurrence("\n2. ", Marker);
    NoOccurrenceAcross("1. ", x, Marker);
    NoOccurrenceAcross("1. " + x, "\n2. ", Marker);
    NoOccurrenceAcross("1. " + x + "\n2. ", y, Marker);
    NoOccurrenceAcross("1. " + x + "\n2. " + y, "\n", Marker);
  }

  lemma NumberTwoFragments(x: string, y: string)
    ensures Numbered(["1. " + x, y]) == ["1. 1. " + x, "2. " + y]
  {
    assert DecimalString(1) == "1" && DecimalString(2) == "2";
    var steps := Numbered(["1. " + x, y]);
    assert steps[0] == "1. 1. " + x;
    assert steps[1] == "2. " + y;
  }

  /** A reply with two numbered steps and the marker. The first step keeps
      the number the reply gave it, because only a number after a newline is
      cut out, so it is numbered twice; the second is numbered once. */
  lemma ParsedTwoSteps(x: string, y: string, z: string)
    requires Trimmed(x) && Trimmed(y) && Trimmed(z) && OneLine(x) && OneLine(y)
    requires !Contains(x, Marker) && !Contains(y, Marker) && !Contains(z, Marker)
    ensures Parsed("1. " + x + "\n2. " + y + "\n" + Marker + z) == Reply(["1. 1. " + x, "2. " + y], z)
  {
    var a := "1. " + x + "\n2. " + y + "\n";
    TwoStepBlockLacksMarker(x, y);
    ParsedWithMarker(a, z);
    StripTrimmed(z);
    TwoStepFragments(x, y);
    NumberTwoFragments(x, y);
  }

  /** A line of printable ASCII text without surrounding spaces is trimmed,
      is one line, and has no marker in it. */
  lemma SampleLine(s: string)
    requires s != [] && s[0] != ' ' && s[|s| - 1] != ' ' && Printable(s)
    ensures Trimmed(s) && OneLine(s) && !Contains(s, Marker)
  {
    PrintableChars(s);
    assert Marker[0] >= 128 as char;
    NoHeadNoOccurrence(s, Marker);
  }

  /** Every character is printable ASCII, from the space on. */
  predicate Printable(s: string) {
    s == [] || (' ' <= s[0] < 128 as char && Printable(s[1..]))
  }

  lemma {:induction false} PrintableChars(s: string)
    requires Printable(s)
    ensures forall j :: 0 <= j < |s| ==> ' ' <= s[j] < 128 as char
  {
    if s != [] {
      PrintableChars(s[1..]);
      assert forall j :: 1 <= j < |s| ==> s[j] == s[1..][j - 1];
    }
  }

  /** A reply without the marker, on sample text. */
  lemma ParsedLinesExample()
    ensures Parsed("Line A\nLine B") == Reply(["Line A", "Line B"], NotFound)
  {
    var x, y := "Line A", "Line B";
    assert x + "\n" + y == "Line A\nLine B";
    SampleLine(x);
    SampleLine(y);
    ParsedTwoLines(x, y);
  }

  /** A reply with steps and the marker, on sample text. */
  lemma ParsedStepsExample()
    ensures Parsed("1. Step one\n2. Step two\n答案：42") == Reply(["1. 1. Step one", "2. Step two"], "42")
  {
    var x, y, z := "Step one", "Step two", "42";
    StepsSampleText();
    SampleLine(x);
    SampleLine(y);
    SampleLine(z);
    ParsedTwoSteps(x, y, z);
  }

  /** How the sample reply with steps is put together. */
  lemma StepsSampleText()
    ensures "1. " + "Step one" + "\n2. " + "Step two" + "\n" + Marker + "42" == "1. Step one\n2. Step two\n答案：42"
    ensures "1. 1. " + "Step one" == "1. 1. Step one"
    ensures "2. " + "Step two" == "2. Step two"
  {
  }
}
