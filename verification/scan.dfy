/** `String.prototype.replace` with a global regular expression, for the
    pattern shapes markdown.mjs uses: the engine tries each position from
    left to right, replaces the match it finds there and resumes after it,
    so matches never overlap. The replacement comes from a callback that
    sees the match index and may keep a counter between calls, as the link
    numbering does.

    `Replace` is the scanning engine; `Positions`, `Leftmost` and `Splice`
    describe its output independently: the input cut at its leftmost
    non-overlapping matches, with the callback's replies in the cuts. */
module Scan {
  import opened Text

  /** The two kinds of regular expression handed to `replace`: a plain
      literal (`/nuxt-link/g`, `/\n\[\]:/g`, `/⁂/g`, ...) and a literal
      preceded by one optional whitespace character
      (`/\s?data-press-link="true"/g`). */
  datatype Pattern = Literal(text: string) | SpaceThen(text: string)

  predicate StartsAt(s: string, i: nat, t: string) {
    i + |t| <= |s| && s[i..i + |t|] == t
  }

  /** The length of the match the engine finds when it tries position `i`,
      or 0 when the pattern does not match there. An optional `\s?` is
      greedy: it takes the whitespace character when the literal follows
      it, and otherwise matches empty. Empty literals are not used. */
  function MatchLen(s: string, p: Pattern, i: nat): (n: nat)
    ensures n > 0 ==> i + n <= |s|
  {
    match p
    case Literal(t) =>
      if |t| > 0 && StartsAt(s, i, t) then |t| else 0
    case SpaceThen(t) =>
      if |t| > 0 && i < |s| && IsSpace(s[i]) && StartsAt(s, i + 1, t) then |t| + 1
      else if |t| > 0 && StartsAt(s, i, t) then |t|
      else 0
  }

  /** The engine's view of a pattern applied to one subject string: the
      length of the match at each position, 0 where there is none. */
  type Matcher = nat -> nat

  /** Matches of `m` stay inside a subject of length `n`. */
  ghost predicate Fits(n: nat, m: Matcher) {
    forall q: nat :: m(q) > 0 ==> q + m(q) <= n
  }

  /** Pattern `p` applied to the subject `s`. */
  function Of(s: string, p: Pattern): (m: Matcher)
    ensures Fits(|s|, m)
  {
    q => MatchLen(s, p, q)
  }

  /** A literal pattern matches exactly where its text occurs, and the
      matched text is the literal. */
  lemma LiteralMatch(s: string, t: string, i: nat)
    requires |t| > 0
    ensures Of(s, Literal(t))(i) > 0 <==> StartsAt(s, i, t)
    ensures Of(s, Literal(t))(i) > 0 ==> s[i..i + Of(s, Literal(t))(i)] == t
  {
  }

  /** A `replace` callback: from the match index and the counter it closes
      over, the replacement text and the counter after the call. */
  type Replacer = (nat, nat) -> (string, nat)

  /** A callback that always answers `rep`: a plain replacement string. */
  function Constant(rep: string): Replacer {
    (i: nat, k: nat) => (rep, k)
  }

  /** `s[i..].replace(p, f)` with the callback's counter starting at `k`. */
  function Replace(s: string, m: Matcher, f: Replacer, i: nat, k: nat): string
    requires i <= |s| && Fits(|s|, m)
    decreases |s| - i
  {
    if i == |s| then []
    else if m(i) > 0 then
      var reply := f(i, k);
      reply.0 + Replace(s, m, f, i + m(i), reply.1)
    else [s[i]] + Replace(s, m, f, i + 1, k)
  }

  /** `s.replace(pat, rep)` for a literal pattern and a plain string. */
  function ReplaceAll(s: string, pat: string, rep: string): string {
    Replace(s, Of(s, Literal(pat)), Constant(rep), 0, 0)
  }

  /** The start of every match the engine replaces, from `i` on. */
  function Positions(s: string, m: Matcher, i: nat): seq<nat>
    requires i <= |s| && Fits(|s|, m)
    decreases |s| - i
  {
    if i == |s| then []
    else if m(i) > 0 then [i] + Positions(s, m, i + m(i))
    else Positions(s, m, i + 1)
  }

  /** One `exec` call from `lastIndex == last`: the engine tries each
      position in turn and stops at the first match, or at the end. */
  method Exec(s: string, m: Matcher, last: nat) returns (q: nat)
    requires last <= |s| && Fits(|s|, m)
    ensures last <= q <= |s|
    ensures q == |s| ==> Positions(s, m, last) == []
    ensures q < |s| ==> m(q) > 0 && Positions(s, m, last) == [q] + Positions(s, m, q + m(q))
  {
    q := last;
    while q < |s| && m(q) == 0
      invariant last <= q <= |s|
      invariant Positions(s, m, q) == Positions(s, m, last)
      decreases |s| - q
    {
      q := q + 1;
    }
  }

  /** `while (match = re.exec(s))`: each search starts where the previous
      match ended, and the loop stops at the first failed search. It finds
      the same matches as `replace` visits. */
  method ExecAll(s: string, m: Matcher) returns (P: seq<nat>)
    requires Fits(|s|, m)
    ensures P == Positions(s, m, 0)
  {
    P := [];
    var last := 0;
    while true
      invariant last <= |s|
      invariant P + Positions(s, m, last) == Positions(s, m, 0)
      decreases |s| - last
    {
      var q := Exec(s, m, last);
      if q == |s| {
        break;
      }
      assert P + ([q] + Positions(s, m, q + m(q))) == (P + [q]) + Positions(s, m, q + m(q));
      P := P + [q];
      last := q + m(q);
    }
    assert P + [] == P;
  }

  ghost predicate NoMatchIn(s: string, m: Matcher, a: nat, b: nat) {
    forall q :: a <= q < b ==> m(q) == 0
  }

  /** `P` lists the leftmost non-overlapping matches of `p` in `s[i..]`:
      each is the first match at or after the end of the previous one, and
      no match starts after the last one ends. */
  ghost predicate Leftmost(s: string, m: Matcher, i: nat, P: seq<nat>)
    decreases |P|
  {
    if |P| == 0 then i <= |s| && NoMatchIn(s, m, i, |s|)
    else
      && i <= P[0]
      && NoMatchIn(s, m, i, P[0])
      && 0 < m(P[0]) && P[0] + m(P[0]) <= |s|
      && Leftmost(s, m, P[0] + m(P[0]), P[1..])
  }

  /** The replies of the callback to the matches `P`, in order, with the
      counter threaded from one call to the next. */
  function Replies(P: seq<nat>, f: Replacer, k: nat): (R: seq<string>)
    ensures |R| == |P|
    decreases |P|
  {
    if |P| == 0 then [] else [f(P[0], k).0] + Replies(P[1..], f, f(P[0], k).1)
  }

  /** `s[i..]` with the match at each `P[j]` cut out and `R[j]` put in. */
  function Splice(s: string, m: Matcher, i: nat, P: seq<nat>, R: seq<string>): string
    requires Leftmost(s, m, i, P) && |R| == |P|
    decreases |P|
  {
    if |P| == 0 then s[i..]
    else s[i..P[0]] + R[0] + Splice(s, m, P[0] + m(P[0]), P[1..], R[1..])
  }

  /** The engine visits exactly the leftmost non-overlapping matches. */
  lemma {:induction false} PositionsLeftmost(s: string, m: Matcher, i: nat)
    requires i <= |s| && Fits(|s|, m)
    ensures Leftmost(s, m, i, Positions(s, m, i))
    decreases |s| - i
  {
    if i < |s| {
      var n := m(i);
      if n > 0 {
        PositionsLeftmost(s, m, i + n);
        assert Positions(s, m, i) == [i] + Positions(s, m, i + n);
      } else {
        PositionsLeftmost(s, m, i + 1);
        var P := Positions(s, m, i + 1);
        assert Positions(s, m, i) == P;
        if |P| == 0 {
          assert NoMatchIn(s, m, i, |s|);
        } else {
          assert NoMatchIn(s, m, i, P[0]);
        }
      }
    }
  }

  /** Leftmost non-overlapping matches are unique: any list with that
      property is the one the engine visits. */
  lemma {:induction false} LeftmostUnique(s: string, m: Matcher, i: nat, P: seq<nat>)
    requires Leftmost(s, m, i, P) && Fits(|s|, m)
    ensures i <= |s| && P == Positions(s, m, i)
    decreases |s| - i, |P|
  {
    if |P| > 0 {
      if m(i) > 0 {
        assert P[0] == i;
        LeftmostUnique(s, m, i + m(i), P[1..]);
      } else {
        LeftmostUnique(s, m, i + 1, P);
      }
    } else if i < |s| {
      assert m(i) == 0;
      LeftmostUnique(s, m, i + 1, P);
    }
  }

  lemma SpliceSkip(s: string, m: Matcher, i: nat, P: seq<nat>, R: seq<string>)
    requires i < |s| && m(i) == 0
    requires Leftmost(s, m, i, P) && Leftmost(s, m, i + 1, P) && |R| == |P|
    ensures Splice(s, m, i, P, R) == [s[i]] + Splice(s, m, i + 1, P, R)
  {
    if |P| > 0 {
      assert s[i..P[0]] == [s[i]] + s[i + 1..P[0]];
    }
  }

  lemma SpliceTake(s: string, m: Matcher, f: Replacer, i: nat, k: nat)
    requires i < |s| && Fits(|s|, m) && m(i) > 0
    requires Leftmost(s, m, i, Positions(s, m, i))
    requires Leftmost(s, m, i + m(i), Positions(s, m, i + m(i)))
    ensures var P := Positions(s, m, i);
      Splice(s, m, i, P, Replies(P, f, k))
      == f(i, k).0 + Splice(s, m, i + m(i), P[1..], Replies(P[1..], f, f(i, k).1))
  {
    var P := Positions(s, m, i);
    assert P == [i] + Positions(s, m, i + m(i));
    var R := Replies(P, f, k);
    RepliesHead(P, f, k);
    SpliceUnfold(s, m, i, P, R);
    EmptyFront(Splice(s, m, i, P, R), s[i..P[0]], R[0], Splice(s, m, P[0] + m(P[0]), P[1..], R[1..]));
  }

  lemma RepliesHead(P: seq<nat>, f: Replacer, k: nat)
    requires |P| > 0
    ensures Replies(P, f, k)[0] == f(P[0], k).0
    ensures Replies(P, f, k)[1..] == Replies(P[1..], f, f(P[0], k).1)
  {
  }

  // Proof step: an empty front part drops out of a concatenation.
  lemma EmptyFront(x: string, a: string, b: string, c: string)
    requires x == a + b + c && |a| == 0
    ensures x == b + c
  {
  }

  lemma SpliceUnfold(s: string, m: Matcher, i: nat, P: seq<nat>, R: seq<string>)
    requires Leftmost(s, m, i, P) && |R| == |P| && |P| > 0
    ensures Leftmost(s, m, P[0] + m(P[0]), P[1..])
    ensures Splice(s, m, i, P, R) == s[i..P[0]] + R[0] + Splice(s, m, P[0] + m(P[0]), P[1..], R[1..])
  {
  }

  /** What `replace` returns: the input cut at its leftmost
      non-overlapping matches, with the callback's replies in the cuts. */
  lemma {:induction false} ReplaceIsSplice(s: string, m: Matcher, f: Replacer, i: nat, k: nat)
    requires i <= |s| && Fits(|s|, m)
    ensures Leftmost(s, m, i, Positions(s, m, i))
    ensures Replace(s, m, f, i, k)
         == Splice(s, m, i, Positions(s, m, i), Replies(Positions(s, m, i), f, k))
    decreases |s| - i
  {
    PositionsLeftmost(s, m, i);
    if i < |s| {
      if m(i) > 0 {
        ReplaceIsSplice(s, m, f, i + m(i), f(i, k).1);
        ReplaceTakeStep(s, m, f, i, k);
      } else {
        ReplaceIsSplice(s, m, f, i + 1, k);
        ReplaceSkipStep(s, m, f, i, k);
      }
    }
  }

  lemma ReplaceTakeStep(s: string, m: Matcher, f: Replacer, i: nat, k: nat)
    requires i < |s| && Fits(|s|, m) && m(i) > 0
    requires Leftmost(s, m, i, Positions(s, m, i))
    requires Leftmost(s, m, i + m(i), Positions(s, m, i + m(i)))
    requires Replace(s, m, f, i + m(i), f(i, k).1)
          == Splice(s, m, i + m(i), Positions(s, m, i + m(i)), Replies(Positions(s, m, i + m(i)), f, f(i, k).1))
    ensures Replace(s, m, f, i, k)
         == Splice(s, m, i, Positions(s, m, i), Replies(Positions(s, m, i), f, k))
  {
    SpliceTake(s, m, f, i, k);
    assert Positions(s, m, i)[1..] == Positions(s, m, i + m(i));
  }

  lemma ReplaceSkipStep(s: string, m: Matcher, f: Replacer, i: nat, k: nat)
    requires i < |s| && Fits(|s|, m) && m(i) == 0
    requires Leftmost(s, m, i, Positions(s, m, i))
    requires Leftmost(s, m, i + 1, Positions(s, m, i + 1))
    requires Replace(s, m, f, i + 1, k)
          == Splice(s, m, i + 1, Positions(s, m, i + 1), Replies(Positions(s, m, i + 1), f, k))
    ensures Replace(s, m, f, i, k)
         == Splice(s, m, i, Positions(s, m, i), Replies(Positions(s, m, i), f, k))
  {
    assert Positions(s, m, i) == Positions(s, m, i + 1);
    SpliceSkip(s, m, i, Positions(s, m, i), Replies(Positions(s, m, i), f, k));
  }

  /** Without a match, `replace` returns its input. */
  lemma NoMatchUnchanged(s: string, m: Matcher, f: Replacer, i: nat, k: nat)
    requires i <= |s| && Fits(|s|, m) && NoMatchIn(s, m, i, |s|)
    ensures Replace(s, m, f, i, k) == s[i..]
  {
    LeftmostUnique(s, m, i, []);
    ReplaceIsSplice(s, m, f, i, k);
  }

  /** Each reply `R[j]` is the very text the match at `P[j]` covers. */
  ghost predicate Echoes(s: string, m: Matcher, P: seq<nat>, R: seq<string>)
    requires |R| == |P|
    decreases |P|
  {
    |P| == 0 || (|R[0]| == m(P[0]) && StartsAt(s, P[0], R[0]) && Echoes(s, m, P[1..], R[1..]))
  }

  /** Putting back what each match cut out restores the input. */
  lemma {:induction false} SpliceMatchesIsIdentity(s: string, m: Matcher, i: nat, P: seq<nat>, R: seq<string>)
    requires Leftmost(s, m, i, P) && |R| == |P| && Echoes(s, m, P, R)
    ensures Splice(s, m, i, P, R) == s[i..]
    decreases |P|
  {
    if |P| > 0 {
      SpliceMatchesIsIdentity(s, m, P[0] + m(P[0]), P[1..], R[1..]);
      SpliceEchoStep(s, m, i, P, R);
    }
  }

  lemma SpliceEchoStep(s: string, m: Matcher, i: nat, P: seq<nat>, R: seq<string>)
    requires |P| > 0 && Leftmost(s, m, i, P) && |R| == |P|
    requires |R[0]| == m(P[0]) && StartsAt(s, P[0], R[0])
    requires Splice(s, m, P[0] + m(P[0]), P[1..], R[1..]) == s[P[0] + m(P[0])..]
    ensures Splice(s, m, i, P, R) == s[i..]
  {
    var e := P[0] + m(P[0]);
    assert R[0] == s[P[0]..e];
    SliceJoin(s, i, P[0], e);
  }

  // Proof step: adjacent slices join into the suffix they cover.
  lemma SliceJoin(s: string, a: nat, b: nat, c: nat)
    requires a <= b <= c <= |s|
    ensures s[a..b] + s[b..c] + s[c..] == s[a..]
  {
  }

  /** A callback that answers each literal match with the matched text
      leaves the input as it was. */
  lemma EchoLiteralUnchanged(s: string, t: string, f: Replacer, i: nat, k: nat)
    requires |t| > 0 && i <= |s|
    requires forall q: nat, c: nat :: StartsAt(s, q, t) ==> f(q, c).0 == t
    ensures Replace(s, Of(s, Literal(t)), f, i, k) == s[i..]
  {
    var m := Of(s, Literal(t));
    ReplaceIsSplice(s, m, f, i, k);
    var P := Positions(s, m, i);
    LiteralRepliesEcho(s, t, f, i, P, k);
    SpliceMatchesIsIdentity(s, m, i, P, Replies(P, f, k));
  }

  lemma {:induction false} LiteralRepliesEcho(s: string, t: string, f: Replacer, i: nat, P: seq<nat>, k: nat)
    requires |t| > 0
    requires forall q: nat, c: nat :: StartsAt(s, q, t) ==> f(q, c).0 == t
    requires Leftmost(s, Of(s, Literal(t)), i, P)
    ensures Echoes(s, Of(s, Literal(t)), P, Replies(P, f, k))
    decreases |P|
  {
    if |P| > 0 {
      var m := Of(s, Literal(t));
      LiteralMatch(s, t, P[0]);
      LiteralRepliesEcho(s, t, f, P[0] + m(P[0]), P[1..], f(P[0], k).1);
    }
  }

  /** Every element of a leftmost match list is a match. */
  lemma {:induction false} LeftmostMatch(s: string, m: Matcher, i: nat, P: seq<nat>, j: nat)
    requires Leftmost(s, m, i, P) && j < |P|
    ensures 0 < m(P[j]) && P[j] + m(P[j]) <= |s|
    decreases j
  {
    if j > 0 {
      LeftmostMatch(s, m, P[0] + m(P[0]), P[1..], j - 1);
    }
  }

  /** The reply to the `j`-th match is the callback's answer given the
      counter left by the earlier calls. */
  lemma {:induction false} RepliesAt(P: seq<nat>, f: Replacer, k: nat, j: nat)
    requires j < |P|
    ensures Replies(P, f, k)[j] == f(P[j], CounterAfter(P[..j], f, k)).0
    decreases j
  {
    if j > 0 {
      RepliesAt(P[1..], f, f(P[0], k).1, j - 1);
      assert P[1..][..j - 1] == P[..j][1..];
    }
  }

  /** The callback's counter after it has answered the matches `P`. */
  function CounterAfter(P: seq<nat>, f: Replacer, k: nat): nat
    decreases |P|
  {
    if |P| == 0 then k else CounterAfter(P[1..], f, f(P[0], k).1)
  }

  /** Plain-string replacement: every leftmost non-overlapping occurrence
      of `pat` is replaced by `rep`, and the text between them is kept. */
  lemma ReplaceAllSplice(s: string, pat: string, rep: string)
    ensures Leftmost(s, Of(s, Literal(pat)), 0, Positions(s, Of(s, Literal(pat)), 0))
    ensures var P := Positions(s, Of(s, Literal(pat)), 0);
      ReplaceAll(s, pat, rep) == Splice(s, Of(s, Literal(pat)), 0, P, seq(|P|, j => rep))
  {
    var P := Positions(s, Of(s, Literal(pat)), 0);
    ReplaceIsSplice(s, Of(s, Literal(pat)), Constant(rep), 0, 0);
    ConstantReplies(P, rep, 0);
  }

  lemma {:induction false} ConstantReplies(P: seq<nat>, rep: string, k: nat)
    ensures Replies(P, Constant(rep), k) == seq(|P|, j => rep)
    decreases |P|
  {
    if |P| > 0 {
      ConstantReplies(P[1..], rep, k);
    }
  }

  /** Replacing every `c` by `rep`, one character at a time. */
  function ExpandChar(t: string, c: char, rep: string): string
    decreases |t|
  {
    if |t| == 0 then [] else (if t[0] == c then rep else [t[0]]) + ExpandChar(t[1..], c, rep)
  }

  /** For a one-character pattern, `replace` is a character-wise
      substitution. */
  lemma {:induction false} ReplaceOneChar(s: string, c: char, f: Replacer, rep: string, i: nat, k: nat)
    requires i <= |s|
    requires forall q, n :: f(q, n).0 == rep
    ensures Replace(s, Of(s, Literal([c])), f, i, k) == ExpandChar(s[i..], c, rep)
    decreases |s| - i
  {
    if i < |s| {
      assert s[i..][1..] == s[i + 1..];
      assert s[i..i + 1] == [s[i]];
      ReplaceOneChar(s, c, f, rep, i + 1, if s[i] == c then f(i, k).1 else k);
    }
  }

  /** Character-wise substitution distributes over concatenation, so each
      character of the input contributes on its own. */
  lemma {:induction false} ExpandCharAppend(a: string, b: string, c: char, rep: string)
    ensures ExpandChar(a + b, c, rep) == ExpandChar(a, c, rep) + ExpandChar(b, c, rep)
    decreases |a|
  {
    if |a| > 0 {
      var h := if a[0] == c then rep else [a[0]];
      assert (a + b)[0] == a[0];
      assert (a + b)[1..] == a[1..] + b;
      ExpandCharAppend(a[1..], b, c, rep);
      calc {
        ExpandChar(a + b, c, rep);
        h + ExpandChar(a[1..] + b, c, rep);
        h + (ExpandChar(a[1..], c, rep) + ExpandChar(b, c, rep));
        (h + ExpandChar(a[1..], c, rep)) + ExpandChar(b, c, rep);
      }
    } else {
      assert a + b == b;
    }
  }

  /** Positions without a match are copied through one by one. */
  lemma {:induction false} ReplaceSkip(s: string, m: Matcher, f: Replacer, i: nat, j: nat, k: nat)
    requires i <= j <= |s| && Fits(|s|, m) && NoMatchIn(s, m, i, j)
    ensures Replace(s, m, f, i, k) == s[i..j] + Replace(s, m, f, j, k)
    decreases j - i
  {
    if i < j {
      var rest := Replace(s, m, f, j, k);
      ReplaceSkip(s, m, f, i + 1, j, k);
      assert Replace(s, m, f, i, k) == [s[i]] + (s[i + 1..j] + rest);
      assert s[i..j] == [s[i]] + s[i + 1..j];
    }
  }

  /** With exactly one match, `replace` cuts out just that match and puts
      the callback's answer in its place. */
  lemma ReplaceOne(s: string, m: Matcher, f: Replacer, q: nat, k: nat)
    requires Fits(|s|, m) && q < |s| && m(q) > 0
    requires NoMatchIn(s, m, 0, q) && NoMatchIn(s, m, q + m(q), |s|)
    ensures Replace(s, m, f, 0, k) == s[..q] + f(q, k).0 + s[q + m(q)..]
  {
    var e, k1 := q + m(q), f(q, k).1;
    ReplaceSkip(s, m, f, 0, q, k);
    NoMatchUnchanged(s, m, f, e, k1);
    assert Replace(s, m, f, q, k) == f(q, k).0 + Replace(s, m, f, e, k1);
    Assoc(s[0..q], f(q, k).0, s[e..]);
  }

  // Proof step: concatenation is associative (stated on abstract strings
  // so the solver does not unfold the parts).
  lemma Assoc(a: string, b: string, c: string)
    ensures a + (b + c) == a + b + c
  {
  }

  /** The engine finds nothing where nothing matches. */
  lemma {:induction false} PositionsSkip(s: string, m: Matcher, i: nat, j: nat)
    requires i <= j <= |s| && Fits(|s|, m) && NoMatchIn(s, m, i, j)
    ensures Positions(s, m, i) == Positions(s, m, j)
    decreases j - i
  {
    if i < j {
      PositionsSkip(s, m, i + 1, j);
    }
  }

  /** A literal cannot match where its first character does not occur. */
  lemma NoStartIn(s: string, t: string, a: nat, b: nat)
    requires |t| > 0 && a <= b <= |s|
    requires t[0] !in s[a..b]
    ensures NoMatchIn(s, Of(s, Literal(t)), a, b)
  {
    forall q | a <= q < b
      ensures Of(s, Literal(t))(q) == 0
    {
      assert s[q] == s[a..b][q - a];
    }
  }

  /** No occurrence of `t` starts anywhere in `s`. */
  predicate Absent(s: string, t: string) {
    forall q :: 0 <= q <= |s| ==> !StartsAt(s, q, t)
  }

  /** The first match at or after `i`, or `|s|` when there is none. */
  ghost function NextMatch(s: string, m: Matcher, i: nat): (j: nat)
    requires i <= |s|
    ensures i <= j <= |s| && NoMatchIn(s, m, i, j)
    ensures j < |s| ==> m(j) > 0
    decreases |s| - i
  {
    if i == |s| || m(i) > 0 then i else NextMatch(s, m, i + 1)
  }

  /** An occurrence that lies inside the front part of a concatenation is an
      occurrence in that part. */
  lemma StartsInFront(x: string, y: string, q: nat, t: string)
    requires q + |t| <= |x|
    ensures StartsAt(x + y, q, t) <==> StartsAt(x, q, t)
  {
    assert (x + y)[q..q + |t|] == x[q..q + |t|];
  }

  /** An occurrence after the front part is an occurrence in the back part. */
  lemma StartsInBack(x: string, y: string, q: nat, t: string)
    requires |x| <= q
    ensures StartsAt(x + y, q, t) <==> StartsAt(y, q - |x|, t)
  {
    if q + |t| <= |x + y| {
      assert (x + y)[q..q + |t|] == y[q - |x|..q - |x| + |t|];
    }
  }

  /** A character that differs from the one `t` has there rules out an
      occurrence of `t`. */
  lemma MismatchAt(s: string, q: nat, t: string, p: nat)
    requires q <= p < q + |t| && p < |s| && s[p] != t[p - q]
    ensures !StartsAt(s, q, t)
  {
    if q + |t| <= |s| {
      assert s[q..q + |t|][p - q] == s[p];
    }
  }

  /** Text copied from `s[i..j]` holds an occurrence only where `s` does. */
  lemma CopiedNoStart(s: string, t: string, i: nat, j: nat, q: nat, tail: string)
    requires i <= j <= |s| && q + |t| <= j - i && !StartsAt(s, i + q, t)
    ensures !StartsAt(s[i..j] + tail, q, t)
  {
    StartsInFront(s[i..j], tail, q, t);
    var w := s[i..j][q..q + |t|];
    forall x | 0 <= x < |t|
      ensures w[x] == s[i + q..i + q + |t|][x]
    {
    }
    assert w == s[i + q..i + q + |t|];
  }

  /** No occurrence of `t` lies wholly inside `x`. */
  predicate Clean(x: string, t: string) {
    forall q :: 0 <= q && q + |t| <= |x| ==> !StartsAt(x, q, t)
  }

  /** Text copied from `s[i..j]`, where no occurrence of `t` starts, is
      clean. */
  lemma CopiedClean(s: string, t: string, i: nat, j: nat)
    requires |t| > 0 && i <= j <= |s|
    requires forall q :: i <= q < j ==> !StartsAt(s, q, t)
    ensures Clean(s[i..j], t)
  {
    forall q | 0 <= q && q + |t| <= j - i
      ensures !StartsAt(s[i..j], q, t)
    {
      assert !StartsAt(s, i + q, t);
      CopiedNoStart(s, t, i, j, q, []);
      assert s[i..j] + [] == s[i..j];
    }
  }

  /** Clean text, then a replacement that can neither end nor start an
      occurrence, then text without occurrences, has no occurrence. */
  lemma JoinAbsent(x: string, rep: string, rest: string, t: string)
    requires |t| > 0 && |rep| > 0 && rep[0] !in t && t[0] !in rep
    requires Clean(x, t) && Absent(rest, t)
    ensures Absent(x + rep + rest, t)
  {
    var out := x + rep + rest;
    var a := |x|;
    forall q | 0 <= q <= |out|
      ensures !StartsAt(out, q, t)
    {
      if q + |t| <= a {
        assert out == x + (rep + rest);
        StartsInFront(x, rep + rest, q, t);
      } else if q < a {
        assert out[a] == rep[0];
        MismatchAt(out, q, t, a);
      } else if q < a + |rep| {
        assert out[q] == rep[q - a];
        MismatchAt(out, q, t, q);
      } else {
        StartsInBack(x + rep, rest, q, t);
      }
    }
  }

  /** Clean text has no occurrence at all. */
  lemma CleanAbsent(x: string, t: string)
    requires Clean(x, t)
    ensures Absent(x, t)
  {
  }

  /** A plain replacement from `i` on: the text up to the next match, the
      replacement, and the replacement after that match. */
  lemma ReplaceAround(s: string, m: Matcher, rep: string, i: nat, k: nat)
    requires i <= |s| && Fits(|s|, m)
    ensures var j := NextMatch(s, m, i);
      && (j == |s| ==> Replace(s, m, Constant(rep), i, k) == s[i..j])
      && (j < |s| ==> Replace(s, m, Constant(rep), i, k) == s[i..j] + rep + Replace(s, m, Constant(rep), j + m(j), k))
  {
    var j := NextMatch(s, m, i);
    ReplaceSkip(s, m, Constant(rep), i, j, k);
    if j < |s| {
      var rest := Replace(s, m, Constant(rep), j + m(j), k);
      assert Replace(s, m, Constant(rep), j, k) == rep + rest;
      assert s[i..j] + (rep + rest) == s[i..j] + rep + rest;
    } else {
      assert s[i..j] + [] == s[i..j];
    }
  }

  /** Where a literal does not match, its text does not start. */
  lemma NoMatchNoStart(s: string, pat: string, i: nat, j: nat)
    requires |pat| > 0 && NoMatchIn(s, Of(s, Literal(pat)), i, j)
    ensures forall q :: i <= q < j ==> !StartsAt(s, q, pat)
  {
    forall q | i <= q < j
      ensures !StartsAt(s, q, pat)
    {
      LiteralMatch(s, pat, q);
    }
  }

  /** Replacing a literal with a text that can neither begin inside an
      occurrence nor be the start of one leaves no occurrence behind: the
      first character of the replacement is not in the pattern, and the
      first character of the pattern is not in the replacement. */
  lemma {:induction false} ReplaceLeavesNone(s: string, pat: string, rep: string, i: nat, k: nat)
    requires |pat| > 0 && |rep| > 0 && rep[0] !in pat && pat[0] !in rep && i <= |s|
    ensures Absent(Replace(s, Of(s, Literal(pat)), Constant(rep), i, k), pat)
    decreases |s| - i
  {
    var m := Of(s, Literal(pat));
    var j := NextMatch(s, m, i);
    ReplaceAround(s, m, rep, i, k);
    NoMatchNoStart(s, pat, i, j);
    CopiedClean(s, pat, i, j);
    if j < |s| {
      LiteralMatch(s, pat, j);
      ReplaceLeavesNone(s, pat, rep, j + m(j), k);
      JoinAbsent(s[i..j], rep, Replace(s, m, Constant(rep), j + m(j), k), pat);
    } else {
      CleanAbsent(s[i..j], pat);
    }
  }

  /** A replacement none of whose characters occur in `t` creates no
      occurrence of `t`: every occurrence in the result lies inside text
      copied from the input. */
  lemma {:induction false} ReplaceKeepsAbsent(s: string, pat: string, rep: string, t: string, i: nat, k: nat)
    requires |pat| > 0 && |rep| > 0 && |t| > 0 && i <= |s|
    requires forall x :: 0 <= x < |rep| ==> rep[x] !in t
    requires Absent(s, t)
    ensures Absent(Replace(s, Of(s, Literal(pat)), Constant(rep), i, k), t)
    decreases |s| - i
  {
    var m := Of(s, Literal(pat));
    var j := NextMatch(s, m, i);
    ReplaceAround(s, m, rep, i, k);
    CopiedClean(s, t, i, j);
    if j < |s| {
      ReplaceKeepsAbsent(s, pat, rep, t, j + m(j), k);
      assert t[0] !in rep;
      JoinAbsent(s[i..j], rep, Replace(s, m, Constant(rep), j + m(j), k), t);
    } else {
      CleanAbsent(s[i..j], t);
    }
  }

  /** `s.replace(pat, rep)` leaves no occurrence of `pat` under the same
      conditions. */
  lemma ReplaceAllLeavesNone(s: string, pat: string, rep: string)
    requires |pat| > 0 && |rep| > 0 && rep[0] !in pat && pat[0] !in rep
    ensures Absent(ReplaceAll(s, pat, rep), pat)
  {
    ReplaceLeavesNone(s, pat, rep, 0, 0);
  }
}
