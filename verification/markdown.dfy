/** The text rewrites of markdown.mjs around the markdown renderer: link
    numbering and asterisms before rendering, three HTML rewrites after. The
    renderer itself (`processor.toMarkup`) is a parameter. */
module Markdown {
  import opened Results
  import opened Text
  import opened Scan

  /** A range as `collectRanges` records it: the match index and the
      match length minus one. */
  type Range = (nat, nat)

  /** The first backtick at or after `i`, or `|s|`. */
  function NextTick(s: string, i: nat): (j: nat)
    requires i <= |s|
    ensures i <= j <= |s|
    ensures forall x :: i <= x < j ==> s[x] != '`'
    ensures j < |s| ==> s[j] == '`'
    decreases |s| - i
  {
    if i == |s| || s[i] == '`' then i else NextTick(s, i + 1)
  }

  /** The length of the match of /`[^`]+`/ found when the engine tries
      position `q`: a backtick, then at least one non-backtick up to the
      next backtick, which closes it. 0 when there is no match there. */
  function SpanLen(s: string, q: nat): (n: nat)
    ensures n > 0 ==> q + n <= |s|
  {
    if q < |s| && s[q] == '`' then
      var j := NextTick(s, q + 1);
      if q + 1 < j < |s| then j + 1 - q else 0
    else 0
  }

  function CodeSpan(s: string): (m: Matcher)
    ensures Fits(|s|, m)
  {
    q => SpanLen(s, q)
  }

  /** A code span from index `a` to its closing backtick at `b`. */
  ghost predicate IsCodeSpan(s: string, a: nat, b: nat) {
    && a + 2 <= b < |s|
    && s[a] == '`' && s[b] == '`'
    && forall x :: a < x < b ==> s[x] != '`'
  }

  /** The range recorded for the code span the engine matched at `q`. */
  function RangeAt(s: string, q: nat): Range {
    (q, if SpanLen(s, q) > 0 then SpanLen(s, q) - 1 else 0)
  }

  function RangesOf(s: string, P: seq<nat>): (r: seq<Range>)
    ensures |r| == |P|
  {
    seq(|P|, j requires 0 <= j < |P| => RangeAt(s, P[j]))
  }

  lemma {:induction false} PositionsAreSpans(s: string, i: nat)
    requires i <= |s|
    ensures forall j :: 0 <= j < |Positions(s, CodeSpan(s), i)| ==> SpanLen(s, Positions(s, CodeSpan(s), i)[j]) > 0
    decreases |s| - i
  {
    if i < |s| {
      var m := CodeSpan(s);
      if m(i) > 0 {
        PositionsAreSpans(s, i + m(i));
      } else {
        PositionsAreSpans(s, i + 1);
      }
    }
  }

  /** `collectRanges(/`[^`]+`/g, s)`: one range per code span the engine
      finds, scanning left to right. */
  function CodeRanges(s: string): seq<Range> {
    RangesOf(s, Positions(s, CodeSpan(s), 0))
  }

  /** The `exec` loop of `collectRanges`: each search starts at the
      previous match's end (`lastIndex`) and the loop stops at the first
      failed search. It collects the ranges of the leftmost
      non-overlapping matches, which `CodeRangesShape` describes. */
  method CollectRanges(s: string) returns (ranges: seq<Range>)
    ensures ranges == CodeRanges(s)
  {
    var P := ExecAll(s, CodeSpan(s));
    ranges := RangesOf(s, P);
  }

  /** Each range covers one code span, from its opening to its closing
      backtick at start + second component. */
  ghost predicate CoverSpans(s: string, ranges: seq<Range>) {
    forall j :: 0 <= j < |ranges| ==> IsCodeSpan(s, ranges[j].0, ranges[j].0 + ranges[j].1)
  }

  /** The ranges come in increasing order without overlap. */
  predicate Increasing(ranges: seq<Range>) {
    forall j :: 0 <= j < |ranges| - 1 ==> ranges[j].0 + ranges[j].1 < ranges[j + 1].0
  }

  /** The ranges the engine collects are code spans, in order. */
  lemma CodeRangesShape(s: string)
    ensures CoverSpans(s, CodeRanges(s)) && Increasing(CodeRanges(s))
  {
    CodeRangesAreSpans(s);
    CodeRangesOrdered(s);
  }

  lemma CodeRangesAreSpans(s: string)
    ensures CoverSpans(s, CodeRanges(s))
  {
    var P := Positions(s, CodeSpan(s), 0);
    var r := CodeRanges(s);
    PositionsAreSpans(s, 0);
    forall j | 0 <= j < |r|
      ensures IsCodeSpan(s, r[j].0, r[j].0 + r[j].1)
    {
      assert r[j] == RangeAt(s, P[j]);
      SpanIsCodeSpan(s, P[j]);
    }
  }

  lemma CodeRangesOrdered(s: string)
    ensures Increasing(CodeRanges(s))
  {
    var m := CodeSpan(s);
    var P := Positions(s, m, 0);
    var r := CodeRanges(s);
    PositionsLeftmost(s, m, 0);
    PositionsAreSpans(s, 0);
    forall j | 0 <= j < |r|
      ensures r[j].0 == P[j] && r[j].0 + r[j].1 < P[j] + m(P[j])
    {
      assert r[j] == RangeAt(s, P[j]);
    }
    IncreasingOfLeftmost(s, m, P, r);
  }

  /** Ranges that start at leftmost matches and end inside them increase. */
  lemma IncreasingOfLeftmost(s: string, m: Matcher, P: seq<nat>, r: seq<Range>)
    requires Leftmost(s, m, 0, P) && |r| == |P|
    requires forall j :: 0 <= j < |r| ==> r[j].0 == P[j] && r[j].0 + r[j].1 < P[j] + m(P[j])
    ensures Increasing(r)
  {
    forall j | 0 <= j < |r| - 1
      ensures r[j].0 + r[j].1 < r[j + 1].0
    {
      LeftmostOrdered(s, m, 0, P, j);
    }
  }

  /** A match of /`[^`]+`/ is a code span, and its range ends on the
      closing backtick. */
  lemma SpanIsCodeSpan(s: string, q: nat)
    requires SpanLen(s, q) > 0
    ensures IsCodeSpan(s, RangeAt(s, q).0, RangeAt(s, q).0 + RangeAt(s, q).1)
  {
  }

  /** Consecutive leftmost matches do not overlap. */
  lemma {:induction false} LeftmostOrdered(s: string, m: Matcher, i: nat, P: seq<nat>, j: nat)
    requires Leftmost(s, m, i, P) && j + 1 < |P|
    ensures P[j] + m(P[j]) <= P[j + 1]
    decreases j
  {
    if j > 0 {
      LeftmostOrdered(s, m, P[0] + m(P[0]), P[1..], j - 1);
    }
  }

  /** A position counts as escaped when some range has
      `r[0] <= index <= r[1]`. */
  predicate Escaped(ranges: seq<Range>, i: nat) {
    exists j :: 0 <= j < |ranges| && ranges[j].0 <= i <= ranges[j].1
  }

  /** `ranges.find(r => r[0] <= index && index <= r[1])`: the first range
      holding `i`, or none. A range found is a two-element array, which is
      always truthy, so the callbacks' test `!find(...)` holds exactly when
      `i` is not `Escaped`. */
  function Find(ranges: seq<Range>, i: nat): (r: Option<Range>)
    ensures r.Some? <==> Escaped(ranges, i)
    ensures r.Some? ==> (exists j :: 0 <= j < |ranges| && ranges[j] == r.value && FirstHolding(ranges, i, j))
    decreases |ranges|
  {
    if |ranges| == 0 then None
    else if ranges[0].0 <= i <= ranges[0].1 then
      assert FirstHolding(ranges, i, 0);
      Some(ranges[0])
    else
      var r := Find(ranges[1..], i);
      if r.Some? then
        var j :| 0 <= j < |ranges[1..]| && ranges[1..][j] == r.value && FirstHolding(ranges[1..], i, j);
        FirstHoldingShift(ranges, i, j);
        r
      else
        assert forall x :: 1 <= x < |ranges| ==> ranges[x] == ranges[1..][x - 1];
        r
  }

  /** Range `j` is the first that holds `i`. */
  predicate FirstHolding(ranges: seq<Range>, i: nat, j: nat) {
    && j < |ranges| && ranges[j].0 <= i <= ranges[j].1
    && forall x :: 0 <= x < j ==> !(ranges[x].0 <= i <= ranges[x].1)
  }

  lemma FirstHoldingShift(ranges: seq<Range>, i: nat, j: nat)
    requires |ranges| > 0 && !(ranges[0].0 <= i <= ranges[0].1)
    requires FirstHolding(ranges[1..], i, j)
    ensures FirstHolding(ranges, i, j + 1) && ranges[j + 1] == ranges[1..][j]
  {
    forall x | 1 <= x < j + 1
      ensures !(ranges[x].0 <= i <= ranges[x].1)
    {
      assert ranges[x] == ranges[1..][x - 1];
    }
  }

  datatype LinkKind = Definition | Reference

  /** What is numbered: an empty link definition at the start of a line
      (`\n[]:`) or an empty reference (`][]`). */
  function LinkPattern(kind: LinkKind): string {
    match kind
    case Definition => "\n[]:"
    case Reference => "][]"
  }

  /** The numbered form of a definition or reference. */
  function Label(kind: LinkKind, n: nat): string {
    match kind
    case Definition => "\n[" + DecimalString(n) + "]:"
    case Reference => "][" + DecimalString(n) + "]"
  }

  /** A callback that returns nothing is turned into this text by `replace`. */
  const Undefined: string := "undefined"

  /** The numbering callback of markdown.mjs: outside the ranges it hands
      out the next number; inside them it answers `onEscaped`, which is
      "undefined" in the code as written. */
  function Numbering(ranges: seq<Range>, kind: LinkKind, onEscaped: string): Replacer {
    (i: nat, k: nat) => if Escaped(ranges, i) then (onEscaped, k) else (Label(kind, k), k + 1)
  }

  /** The callback as markdown.mjs writes it: a number when `find` finds no
      range holding the index, and otherwise the escaped answer. */
  lemma NumberingTestsFind(ranges: seq<Range>, kind: LinkKind, onEscaped: string, i: nat, k: nat)
    ensures Numbering(ranges, kind, onEscaped)(i, k)
         == if Find(ranges, i).None? then (Label(kind, k), k + 1) else (onEscaped, k)
  {
  }

  function LinkMatcher(s: string, kind: LinkKind): Matcher
    ensures Fits(|s|, LinkMatcher(s, kind))
  {
    Of(s, Literal(LinkPattern(kind)))
  }

  /** One `replace` pass numbering `kind` links from 1. */
  function NumberPass(s: string, ranges: seq<Range>, kind: LinkKind, onEscaped: string): string {
    Replace(s, LinkMatcher(s, kind), Numbering(ranges, kind, onEscaped), 0, 1)
  }

  /** One pass of `transformMarkdownLinks` as written. */
  function NumberLinks(s: string, ranges: seq<Range>, kind: LinkKind): string {
    NumberPass(s, ranges, kind, Undefined)
  }

  /** `transformMarkdownLinks`: definitions first, then references, both
      passes looking up the ranges of the original text. */
  function TransformMarkdownLinks(md: string): string {
    var ranges := CodeRanges(md);
    NumberLinks(NumberLinks(md, ranges, Definition), ranges, Reference)
  }

  /** How many of the positions `Q` are not escaped. */
  function FreeCount(ranges: seq<Range>, Q: seq<nat>): nat
    decreases |Q|
  {
    if |Q| == 0 then 0
    else (if Escaped(ranges, Q[0]) then 0 else 1) + FreeCount(ranges, Q[1..])
  }

  /** The text each match is replaced by: `onEscaped` when escaped, and
      otherwise the label numbered by how many unescaped matches came
      before it, counting from `k`. */
  function NumberedText(ranges: seq<Range>, kind: LinkKind, onEscaped: string, P: seq<nat>, k: nat): (R: seq<string>)
    ensures |R| == |P|
  {
    seq(|P|, j requires 0 <= j < |P| =>
      if Escaped(ranges, P[j]) then onEscaped else Label(kind, k + FreeCount(ranges, P[..j])))
  }

  lemma {:induction false} NumberingCounter(ranges: seq<Range>, kind: LinkKind, onEscaped: string, Q: seq<nat>, k: nat)
    ensures CounterAfter(Q, Numbering(ranges, kind, onEscaped), k) == k + FreeCount(ranges, Q)
    decreases |Q|
  {
    if |Q| > 0 {
      NumberingCounter(ranges, kind, onEscaped, Q[1..], Numbering(ranges, kind, onEscaped)(Q[0], k).1);
    }
  }

  lemma NumberingReplies(ranges: seq<Range>, kind: LinkKind, onEscaped: string, P: seq<nat>, k: nat)
    ensures Replies(P, Numbering(ranges, kind, onEscaped), k) == NumberedText(ranges, kind, onEscaped, P, k)
  {
    var f := Numbering(ranges, kind, onEscaped);
    var R := Replies(P, f, k);
    forall j | 0 <= j < |P|
      ensures R[j] == NumberedText(ranges, kind, onEscaped, P, k)[j]
    {
      RepliesAt(P, f, k, j);
      NumberingCounter(ranges, kind, onEscaped, P[..j], k);
    }
  }

  /** One numbering pass: the leftmost non-overlapping occurrences of the
      pattern are cut out; an unescaped one becomes the label numbered by
      how many unescaped ones precede it, plus one; an escaped one becomes
      `onEscaped` and does not advance the count. */
  lemma NumberPassSpec(s: string, ranges: seq<Range>, kind: LinkKind, onEscaped: string)
    ensures Leftmost(s, LinkMatcher(s, kind), 0, Positions(s, LinkMatcher(s, kind), 0))
    ensures var P := Positions(s, LinkMatcher(s, kind), 0);
      NumberPass(s, ranges, kind, onEscaped)
      == Splice(s, LinkMatcher(s, kind), 0, P, NumberedText(ranges, kind, onEscaped, P, 1))
  {
    var m := LinkMatcher(s, kind);
    ReplaceIsSplice(s, m, Numbering(ranges, kind, onEscaped), 0, 1);
    NumberingReplies(ranges, kind, onEscaped, Positions(s, m, 0), 1);
  }

  /** Both passes of `transformMarkdownLinks`: definitions are numbered in
      `md`, then references in the result, with a counter restarted at 1;
      both tests use the ranges of the original `md`, and an escaped match
      becomes "undefined". */
  lemma TransformMarkdownLinksSpec(md: string)
    ensures var ranges := CodeRanges(md);
      var t := NumberLinks(md, ranges, Definition);
      var P := Positions(md, LinkMatcher(md, Definition), 0);
      var Q := Positions(t, LinkMatcher(t, Reference), 0);
      && Leftmost(md, LinkMatcher(md, Definition), 0, P)
      && Leftmost(t, LinkMatcher(t, Reference), 0, Q)
      && t == Splice(md, LinkMatcher(md, Definition), 0, P, NumberedText(ranges, Definition, Undefined, P, 1))
      && TransformMarkdownLinks(md)
         == Splice(t, LinkMatcher(t, Reference), 0, Q, NumberedText(ranges, Reference, Undefined, Q, 1))
  {
    var ranges := CodeRanges(md);
    NumberPassSpec(md, ranges, Definition, Undefined);
    NumberPassSpec(NumberLinks(md, ranges, Definition), ranges, Reference, Undefined);
  }

  lemma NoLinkNoMatch(s: string, kind: LinkKind)
    requires forall q :: 0 <= q <= |s| ==> !StartsAt(s, q, LinkPattern(kind))
    ensures NoMatchIn(s, LinkMatcher(s, kind), 0, |s|)
  {
    forall q | 0 <= q < |s|
      ensures LinkMatcher(s, kind)(q) == 0
    {
      LiteralMatch(s, LinkPattern(kind), q);
    }
  }

  /** Text without an empty definition and without an empty reference
      comes back unchanged. */
  lemma NoLinksUnchanged(md: string)
    requires forall q :: 0 <= q <= |md| ==> !StartsAt(md, q, LinkPattern(Definition))
    requires forall q :: 0 <= q <= |md| ==> !StartsAt(md, q, LinkPattern(Reference))
    ensures TransformMarkdownLinks(md) == md
  {
    var ranges := CodeRanges(md);
    NoLinkNoMatch(md, Definition);
    NoMatchUnchanged(md, LinkMatcher(md, Definition), Numbering(ranges, Definition, Undefined), 0, 1);
    NoLinkNoMatch(md, Reference);
    NoMatchUnchanged(md, LinkMatcher(md, Reference), Numbering(ranges, Reference, Undefined), 0, 1);
  }

  // Corrected link numbering.

  /** The ranges `collectRanges` was evidently meant to record: the index
      of the opening and of the closing backtick of each code span, so that
      `r[0] <= index <= r[1]` tests whether `index` lies inside it. */
  function SpanRanges(s: string): (r: seq<Range>)
    ensures |r| == |CodeRanges(s)|
  {
    var c := CodeRanges(s);
    seq(|c|, j requires 0 <= j < |c| => (c[j].0, c[j].0 + c[j].1))
  }

  /** Each corrected range runs from the opening to the closing backtick
      of a code span, so a position is escaped exactly when it lies inside
      one of the code spans the engine finds. */
  lemma SpanRangesAreSpans(s: string)
    ensures var r := SpanRanges(s);
      && (forall j :: 0 <= j < |r| ==> IsCodeSpan(s, r[j].0, r[j].1))
      && (forall j :: 0 <= j < |r| - 1 ==> r[j].1 < r[j + 1].0)
  {
    CodeRangesShape(s);
  }

  /** A pass that leaves an escaped match as it was. */
  function KeepingPass(s: string, ranges: seq<Range>, kind: LinkKind): string {
    NumberPass(s, ranges, kind, LinkPattern(kind))
  }

  /** The evident intent of `transformMarkdownLinks`: an empty link inside
      a code span is kept as it is, and each pass tests the positions of
      the text it scans against the code spans of that same text. */
  function TransformLinksIntended(md: string): string {
    var t := KeepingPass(md, SpanRanges(md), Definition);
    KeepingPass(t, SpanRanges(t), Reference)
  }

  /** A keeping pass changes nothing when every match is escaped. */
  lemma KeepingPassUnchanged(s: string, ranges: seq<Range>, kind: LinkKind)
    requires forall q :: StartsAt(s, q, LinkPattern(kind)) ==> Escaped(ranges, q)
    ensures KeepingPass(s, ranges, kind) == s
  {
    EchoLiteralUnchanged(s, LinkPattern(kind), Numbering(ranges, kind, LinkPattern(kind)), 0, 1);
  }

  /** Empty links that all sit inside code spans are left alone by the
      corrected transformation. */
  lemma IntendedKeepsCode(md: string)
    requires forall q :: StartsAt(md, q, LinkPattern(Definition)) ==> Escaped(SpanRanges(md), q)
    requires forall q :: StartsAt(md, q, LinkPattern(Reference)) ==> Escaped(SpanRanges(md), q)
    ensures TransformLinksIntended(md) == md
  {
    KeepingPassUnchanged(md, SpanRanges(md), Definition);
    KeepingPassUnchanged(md, SpanRanges(md), Reference);
  }

  /** Both corrected passes: the definition pass against the code spans of
      `md`, the reference pass against the code spans of its output, and
      escaped matches kept as they were. */
  lemma TransformLinksIntendedSpec(md: string)
    ensures var t := KeepingPass(md, SpanRanges(md), Definition);
      var P := Positions(md, LinkMatcher(md, Definition), 0);
      var Q := Positions(t, LinkMatcher(t, Reference), 0);
      && Leftmost(md, LinkMatcher(md, Definition), 0, P)
      && Leftmost(t, LinkMatcher(t, Reference), 0, Q)
      && t == Splice(md, LinkMatcher(md, Definition), 0, P,
                     NumberedText(SpanRanges(md), Definition, LinkPattern(Definition), P, 1))
      && TransformLinksIntended(md)
         == Splice(t, LinkMatcher(t, Reference), 0, Q,
                   NumberedText(SpanRanges(t), Reference, LinkPattern(Reference), Q, 1))
  {
    NumberPassSpec(md, SpanRanges(md), Definition, LinkPattern(Definition));
    var t := KeepingPass(md, SpanRanges(md), Definition);
    NumberPassSpec(t, SpanRanges(t), Reference, LinkPattern(Reference));
  }

  // Inputs on which the code as written and the corrected version part.

  /** Without backticks there is no code span. */
  lemma NoTickNoSpan(s: string, a: nat, b: nat)
    requires a <= b <= |s| && '`' !in s[a..b]
    ensures NoMatchIn(s, CodeSpan(s), a, b)
  {
    forall q | a <= q < b
      ensures CodeSpan(s)(q) == 0
    {
      assert s[q] == s[a..b][q - a];
    }
  }

  /** A text with exactly two backticks, at `a` and `b`, holds one code
      span when they enclose something. */
  lemma OneSpan(s: string, a: nat, b: nat)
    requires a + 1 < b < |s| && s[a] == '`' && s[b] == '`'
    requires '`' !in s[..a] && '`' !in s[a + 1..b] && '`' !in s[b + 1..]
    ensures CodeRanges(s) == [(a, b - a)]
    ensures SpanRanges(s) == [(a, b)]
  {
    var m := CodeSpan(s);
    forall x | a + 1 <= x < b
      ensures s[x] != '`'
    {
      assert s[x] == s[a + 1..b][x - a - 1];
    }
    assert NextTick(s, a + 1) == b;
    assert SpanLen(s, a) == b + 1 - a;
    assert s[..a] == s[0..a];
    NoTickNoSpan(s, 0, a);
    PositionsSkip(s, m, 0, a);
    NoTickNoSpan(s, b + 1, |s|);
    PositionsSkip(s, m, b + 1, |s|);
    assert Positions(s, m, 0) == [a];
  }

  /** A pass over a text whose pattern's first character does not occur
      in it changes nothing. */
  lemma NoMatchPass(s: string, ranges: seq<Range>, kind: LinkKind, onEscaped: string)
    requires LinkPattern(kind)[0] !in s
    ensures NumberPass(s, ranges, kind, onEscaped) == s
  {
    assert s[0..|s|] == s;
    NoStartIn(s, LinkPattern(kind), 0, |s|);
    NoMatchUnchanged(s, LinkMatcher(s, kind), Numbering(ranges, kind, onEscaped), 0, 1);
  }

  /** A pass over a text with a single match replaces just that match by
      the callback's first answer. */
  lemma OneMatchPass(s: string, ranges: seq<Range>, kind: LinkKind, onEscaped: string, q: nat)
    requires StartsAt(s, q, LinkPattern(kind))
    requires NoMatchIn(s, LinkMatcher(s, kind), 0, q)
    requires NoMatchIn(s, LinkMatcher(s, kind), q + |LinkPattern(kind)|, |s|)
    ensures NumberPass(s, ranges, kind, onEscaped)
      == s[..q] + Numbering(ranges, kind, onEscaped)(q, 1).0 + s[q + |LinkPattern(kind)|..]
  {
    var t := LinkPattern(kind);
    var m := LinkMatcher(s, kind);
    var f := Numbering(ranges, kind, onEscaped);
    LiteralMatch(s, t, q);
    ReplaceOne(s, m, f, q, 1);
  }

  /** One code span, with no other backtick around it. */
  lemma SpanBetween(pre: string, body: string, post: string)
    requires |body| > 0 && '`' !in pre && '`' !in body && '`' !in post
    ensures CodeRanges(pre + "`" + body + "`" + post) == [(|pre|, |body| + 1)]
    ensures SpanRanges(pre + "`" + body + "`" + post) == [(|pre|, |pre| + |body| + 1)]
  {
    var s := pre + "`" + body + "`" + post;
    var a, b := |pre|, |pre| + |body| + 1;
    assert s[..a] == pre && s[a + 1..b] == body && s[b + 1..] == post;
    assert s[a] == '`' && s[b] == '`';
    OneSpan(s, a, b);
  }

  /** One empty link, with no other occurrence of its first character
      around it. */
  lemma LinkBetween(pre: string, post: string, ranges: seq<Range>, kind: LinkKind, onEscaped: string)
    requires LinkPattern(kind)[0] !in pre && LinkPattern(kind)[0] !in post
    ensures NumberPass(pre + LinkPattern(kind) + post, ranges, kind, onEscaped)
      == pre + Numbering(ranges, kind, onEscaped)(|pre|, 1).0 + post
  {
    var s := pre + LinkPattern(kind) + post;
    var e := |pre| + |LinkPattern(kind)|;
    assert s[..|pre|] == pre && s[|pre|..e] == LinkPattern(kind) && s[e..] == post;
    assert s[0..|pre|] == pre && s[e..|s|] == post;
    NoStartIn(s, LinkPattern(kind), 0, |pre|);
    NoStartIn(s, LinkPattern(kind), e, |s|);
    OneMatchPass(s, ranges, kind, onEscaped, |pre|);
  }

  // Proof step: the three parts of a concatenation are its slices.
  lemma Slices(x: string, y: string, z: string)
    ensures (x + y + z)[..|x|] == x
    ensures (x + y + z)[|x|..|x| + |y|] == y
    ensures (x + y + z)[|x| + |y|..] == z
  {
  }

  lemma LabelOne()
    ensures Label(Reference, 1) == "][1]"
  {
    assert DecimalString(1) == "1";
  }

  /** Text with no backtick, no `]` and no line feed: it holds no code span
      and no part of an empty link. */
  predicate Plain(t: string) {
    '`' !in t && ']' !in t && '\n' !in t
  }

  /** An empty reference quoted as code, between plain texts. */
  lemma QuotedReferenceRanges(pre: string, post: string)
    requires Plain(pre) && Plain(post)
    ensures CodeRanges(pre + "`][]`" + post) == [(|pre|, 4)]
    ensures SpanRanges(pre + "`][]`" + post) == [(|pre|, |pre| + 4)]
  {
    assert pre + "`][]`" + post == pre + "`" + "][]" + "`" + post;
    SpanBetween(pre, "][]", post);
  }

  /** As written, a range ends at the span's length minus one rather than
      at its closing backtick: an empty reference quoted as code is
      numbered once the code span starts at index 4 or later. */
  lemma RangeEndMissesSpan(pre: string, post: string)
    requires Plain(pre) && Plain(post) && |pre| >= 4
    ensures TransformMarkdownLinks(pre + "`][]`" + post) == pre + "`][1]`" + post
  {
    var s := pre + "`][]`" + post;
    QuotedReferenceRanges(pre, post);
    var R := CodeRanges(s);
    NoMatchPass(s, R, Definition, Undefined);
    assert s == (pre + "`") + LinkPattern(Reference) + ("`" + post);
    LinkBetween(pre + "`", "`" + post, R, Reference, Undefined);
    assert !Escaped(R, |pre| + 1);
    LabelOne();
    assert (pre + "`") + "][1]" + ("`" + post) == pre + "`][1]`" + post;
  }

  /** As written, the callback returns nothing for an escaped match, and
      `replace` writes "undefined" in its place: an empty reference quoted
      as code near the start of the text becomes "undefined". */
  lemma EscapedBecomesUndefined(pre: string, post: string)
    requires Plain(pre) && Plain(post) && |pre| <= 3
    ensures TransformMarkdownLinks(pre + "`][]`" + post) == pre + "`undefined`" + post
  {
    var s := pre + "`][]`" + post;
    QuotedReferenceRanges(pre, post);
    var R := CodeRanges(s);
    NoMatchPass(s, R, Definition, Undefined);
    assert s == (pre + "`") + LinkPattern(Reference) + ("`" + post);
    LinkBetween(pre + "`", "`" + post, R, Reference, Undefined);
    assert R[0].0 <= |pre| + 1 <= R[0].1;
    assert (pre + "`") + Undefined + ("`" + post) == pre + "`undefined`" + post;
  }

  /** The corrected version leaves an empty reference quoted as code
      alone, wherever the code span starts. */
  lemma QuotedReferenceKept(pre: string, post: string)
    requires Plain(pre) && Plain(post)
    ensures TransformLinksIntended(pre + "`][]`" + post) == pre + "`][]`" + post
  {
    var s := pre + "`][]`" + post;
    QuotedReferenceRanges(pre, post);
    var C := SpanRanges(s);
    NoMatchPass(s, C, Definition, LinkPattern(Definition));
    assert s == (pre + "`") + LinkPattern(Reference) + ("`" + post);
    LinkBetween(pre + "`", "`" + post, C, Reference, LinkPattern(Reference));
    assert C[0].0 <= |pre| + 1 <= C[0].1;
  }

  /** An empty definition and an empty reference quoted as code. */
  lemma QuotedLinksRanges(pre: string, post: string)
    requires Plain(pre) && Plain(post)
    ensures CodeRanges(pre + "`\n[]:][]`" + post) == [(|pre|, 8)]
    ensures SpanRanges(pre + "`\n[]:][]`" + post) == [(|pre|, |pre| + 8)]
  {
    assert pre + "`\n[]:][]`" + post == pre + "`" + "\n[]:][]" + "`" + post;
    SpanBetween(pre, "\n[]:][]", post);
  }

  /** As written, the reference pass tests positions in the text the
      definition pass produced against the ranges of the original text:
      once "undefined" has lengthened the code span, the quoted empty
      reference falls outside its old range and is numbered. */
  lemma StaleRangesNumberCode(post: string)
    requires Plain(post)
    ensures TransformMarkdownLinks("`\n[]:][]`" + post) == "`undefined][1]`" + post
  {
    var s := "`\n[]:][]`" + post;
    QuotedLinksRanges("", post);
    assert "" + "`\n[]:][]`" + post == s;
    QuotedDefinitionUndefined(post);
    var t := "`undefined" + LinkPattern(Reference) + ("`" + post);
    var R := CodeRanges(s);
    LinkBetween("`undefined", "`" + post, R, Reference, Undefined);
    assert !Escaped(R, 10);
    LabelOne();
    assert "`undefined" + "][1]" + ("`" + post) == "`undefined][1]`" + post;
  }

  lemma QuotedDefinitionUndefined(post: string)
    requires Plain(post)
    requires CodeRanges("`\n[]:][]`" + post) == [(0, 8)]
    ensures NumberLinks("`\n[]:][]`" + post, [(0, 8)], Definition)
      == "`undefined" + LinkPattern(Reference) + ("`" + post)
  {
    var s := "`\n[]:][]`" + post;
    var R: seq<Range> := [(0, 8)];
    assert s == "`" + LinkPattern(Definition) + ("][]`" + post);
    LinkBetween("`", "][]`" + post, R, Definition, Undefined);
    assert R[0].0 <= 1 <= R[0].1;
    assert "`" + Undefined + ("][]`" + post) == "`undefined" + LinkPattern(Reference) + ("`" + post);
  }

  /** The corrected version leaves both quoted links alone. */
  lemma QuotedLinksKept(pre: string, post: string)
    requires Plain(pre) && Plain(post)
    ensures TransformLinksIntended(pre + "`\n[]:][]`" + post) == pre + "`\n[]:][]`" + post
  {
    QuotedLinksRanges(pre, post);
    QuotedDefinitionKept(pre, post);
    QuotedReferenceAfterDefinitionKept(pre, post);
  }

  lemma QuotedDefinitionKept(pre: string, post: string)
    requires Plain(pre) && Plain(post)
    requires SpanRanges(pre + "`\n[]:][]`" + post) == [(|pre|, |pre| + 8)]
    ensures KeepingPass(pre + "`\n[]:][]`" + post, [(|pre|, |pre| + 8)], Definition)
      == pre + "`\n[]:][]`" + post
  {
    var s := pre + "`\n[]:][]`" + post;
    var C: seq<Range> := [(|pre|, |pre| + 8)];
    assert s == (pre + "`") + LinkPattern(Definition) + ("][]`" + post);
    LinkBetween(pre + "`", "][]`" + post, C, Definition, LinkPattern(Definition));
    assert C[0].0 <= |pre| + 1 <= C[0].1;
  }

  lemma QuotedReferenceAfterDefinitionKept(pre: string, post: string)
    requires Plain(pre) && Plain(post)
    ensures KeepingPass(pre + "`\n[]:][]`" + post, [(|pre|, |pre| + 8)], Reference)
      == pre + "`\n[]:][]`" + post
  {
    var s := pre + "`\n[]:][]`" + post;
    var C: seq<Range> := [(|pre|, |pre| + 8)];
    var q := |pre| + 5;
    ReferenceAfterDefinition(pre, post);
    OneMatchPass(s, C, Reference, LinkPattern(Reference), q);
    assert C[0].0 <= q <= C[0].1;
    assert s == (pre + "`\n[]:") + "][]" + ("`" + post);
    Slices(pre + "`\n[]:", "][]", "`" + post);
  }

  /** In the quoted links, the reference pattern matches only at the
      reference. */
  lemma ReferenceAfterDefinition(pre: string, post: string)
    requires Plain(pre) && Plain(post)
    ensures var s := pre + "`\n[]:][]`" + post;
      && StartsAt(s, |pre| + 5, "][]")
      && NoMatchIn(s, LinkMatcher(s, Reference), 0, |pre| + 5)
      && NoMatchIn(s, LinkMatcher(s, Reference), |pre| + 8, |s|)
  {
    var s := pre + "`\n[]:][]`" + post;
    var a := |pre| + 3;
    assert s == (pre + "`\n[") + "]:][]" + ("`" + post);
    Slices(pre + "`\n[", "]:][]", "`" + post);
    assert s[0..a] == s[..a] && s[a + 5..|s|] == s[a + 5..];
    NoStartIn(s, "][]", 0, a);
    NoStartIn(s, "][]", a + 5, |s|);
    NotReferenceAt(s, a);
  }

  lemma NotReferenceAt(s: string, a: nat)
    requires a + 5 <= |s| && s[a..a + 5] == "]:][]"
    ensures StartsAt(s, a + 2, "][]")
    ensures LinkMatcher(s, Reference)(a) == 0 && LinkMatcher(s, Reference)(a + 1) == 0
  {
    assert s[a + 1] == ':' && s[a + 2..a + 5] == "][]";
    assert !StartsAt(s, a, "][]") by {
      assert s[a..a + 3][1] == s[a + 1];
    }
    LiteralMatch(s, "][]", a);
    LiteralMatch(s, "][]", a + 1);
  }

  /** The asterism "⁂" that separates parts of a text, and the paragraph
      it is wrapped in. */
  const Asterism: char := '\U{2042}'
  const AsterismParagraph: string := "<p class=\"asterism\">" + [Asterism] + "</p>"

  /** `.replace(/⁂/g, '<p class="asterism">⁂</p>')`. */
  function MarkAsterisms(s: string): string {
    ReplaceAll(s, [Asterism], AsterismParagraph)
  }

  /** Each asterism becomes its paragraph and every other character stays:
      the rewrite works character by character, so it distributes over
      concatenation. */
  lemma MarkAsterismsCharwise(a: string, b: string)
    ensures MarkAsterisms(a) == ExpandChar(a, Asterism, AsterismParagraph)
    ensures MarkAsterisms(a + b) == MarkAsterisms(a) + MarkAsterisms(b)
    ensures MarkAsterisms([Asterism]) == AsterismParagraph
    ensures Asterism !in a ==> MarkAsterisms(a) == a
  {
    ReplaceOneChar(a, Asterism, Constant(AsterismParagraph), AsterismParagraph, 0, 0);
    ReplaceOneChar(b, Asterism, Constant(AsterismParagraph), AsterismParagraph, 0, 0);
    ReplaceOneChar(a + b, Asterism, Constant(AsterismParagraph), AsterismParagraph, 0, 0);
    ReplaceOneChar([Asterism], Asterism, Constant(AsterismParagraph), AsterismParagraph, 0, 0);
    assert a[0..] == a && b[0..] == b && (a + b)[0..] == a + b;
    ExpandCharAppend(a, b, Asterism, AsterismParagraph);
    if Asterism !in a {
      ExpandCharNoHit(a, Asterism, AsterismParagraph);
    }
  }

  lemma {:induction false} ExpandCharNoHit(t: string, c: char, rep: string)
    requires c !in t
    ensures ExpandChar(t, c, rep) == t
    decreases |t|
  {
    if |t| > 0 {
      assert t == [t[0]] + t[1..];
      ExpandCharNoHit(t[1..], c, rep);
    }
  }

  /** The attribute the renderer puts on internal links, removed together
      with at most one whitespace character in front of it. */
  const PressLinkAttribute: string := "data-press-link=\"true\""

  function StripPressLinks(html: string): string {
    Replace(html, Of(html, SpaceThen(PressLinkAttribute)), Constant(""), 0, 0)
  }

  /** The first two rewrites of the rendered HTML: `nuxt-link` becomes `a`,
      then `to=` becomes `href=`, turning router links into plain anchors. */
  function RewriteLinks(html: string): string {
    ReplaceAll(ReplaceAll(html, "nuxt-link", "a"), "to=", "href=")
  }

  /** The three rewrites of the rendered HTML, in order: the two link
      rewrites, then the press-link attribute is dropped. */
  function RewriteHtml(html: string): string {
    StripPressLinks(RewriteLinks(html))
  }

  /** Every `nuxt-link` is rewritten: none is left after the first rewrite,
      and the second one, whose replacement shares no character with it,
      brings none back; the second leaves no `to=`. */
  lemma RewriteLinksComplete(html: string)
    ensures Absent(ReplaceAll(html, "nuxt-link", "a"), "nuxt-link")
    ensures Absent(RewriteLinks(html), "to=")
    ensures Absent(RewriteLinks(html), "nuxt-link")
  {
    var x := ReplaceAll(html, "nuxt-link", "a");
    ReplaceAllLeavesNone(html, "nuxt-link", "a");
    ReplaceAllLeavesNone(x, "to=", "href=");
    var rep := "href=";
    forall i | 0 <= i < |rep|
      ensures rep[i] !in "nuxt-link"
    {
    }
    ReplaceKeepsAbsent(x, "to=", rep, "nuxt-link", 0, 0);
  }

  /** A press-link match is the attribute, or one whitespace character
      followed by the attribute. */
  predicate PressLinkAt(html: string, q: nat) {
    || StartsAt(html, q, PressLinkAttribute)
    || (q < |html| && IsSpace(html[q]) && StartsAt(html, q + 1, PressLinkAttribute))
  }

  /** What the press-link rewrite removes: at each leftmost non-overlapping
      match, the attribute, or one whitespace character and the attribute;
      the text between the matches is kept as it is. */
  lemma StripPressLinksSpec(html: string)
    ensures var m := Of(html, SpaceThen(PressLinkAttribute));
      var P := Positions(html, m, 0);
      && Leftmost(html, m, 0, P)
      && StripPressLinks(html) == Splice(html, m, 0, P, seq(|P|, j => ""))
      && forall j :: 0 <= j < |P| ==> PressLinkAt(html, P[j])
  {
    var m := Of(html, SpaceThen(PressLinkAttribute));
    var P := Positions(html, m, 0);
    ReplaceIsSplice(html, m, Constant(""), 0, 0);
    ConstantReplies(P, "", 0);
    forall j | 0 <= j < |P|
      ensures PressLinkAt(html, P[j])
    {
      LeftmostMatch(html, m, 0, P, j);
      PressLinkMatch(html, P[j]);
    }
  }

  lemma PressLinkMatch(html: string, q: nat)
    requires Of(html, SpaceThen(PressLinkAttribute))(q) > 0
    ensures PressLinkAt(html, q)
  {
  }

  /** `convertToHTML`: number links, mark asterisms, render, rewrite. The
      links are numbered as the code evidently intends
      (`TransformLinksIntended`); `TransformMarkdownLinks` is the pass as
      written. */
  function ConvertToHtml(toMarkup: string -> string, source: string): string {
    RewriteHtml(toMarkup(MarkAsterisms(TransformLinksIntended(source))))
  }
}
