/** A small backtracking matcher with the match priority of Python's `re`
    (`sre`): a greedy repeat of one character class tries its longest run
    first and gives characters back one at a time, a lazy repeat tries its
    shortest run first and takes one more at a time, an alternation tries
    its left branch before its right one, and the first complete match found
    in that order is THE match. `re.match` anchors at the start of the string
    and does not require the match to reach the end. */
module Regex {
  import opened Chars
  import opened Optional

  /** A set of characters matched by one character of input. */
  datatype CharClass =
    | Digit                    // \d
    | Space                    // \s
    | NotNewline               // .
    | OneOf(chars: seq<char>)  // [abc], or a single literal character
    | SpaceOr(chars: seq<char>) // [\s...]

  predicate InClass(c: char, k: CharClass) {
    match k
    case Digit => IsDigit(c)
    case Space => IsSpace(c)
    case NotNewline => c != '\n'
    case OneOf(cs) => c in cs
    case SpaceOr(cs) => IsSpace(c) || c in cs
  }

  datatype Bound = UpTo(n: nat) | Unbounded

  /** One element of a pattern. */
  datatype Piece =
    | Rep(cls: CharClass, lo: nat, hi: Bound, greedy: bool) // cls{lo,hi}, or cls{lo,hi}? when not greedy
    | Alt(left: Pat, right: Pat)                             // (?:left|right)
    | Mark                                                   // a group boundary: records the position
    | EndAnchor                                              // $ (no MULTILINE)

  /** A pattern: pieces matched one after the other. */
  datatype Pat = Done | Then(head: Piece, tail: Pat)

  /** A single literal character. */
  function Lit(c: char): Piece {
    Rep(OneOf([c]), 1, UpTo(1), true)
  }

  /** `k?`: an optional character, greedy. */
  function Maybe(k: CharClass): Piece {
    Rep(k, 0, UpTo(1), true)
  }

  /** `(?:p)?`: an optional group, greedy. */
  function Opt(p: Pat): Piece {
    Alt(p, Done)
  }

  function PieceSize(x: Piece): nat {
    match x
    case Alt(l, r) => 1 + PatSize(l) + PatSize(r)
    case _ => 1
  }

  function PatSize(p: Pat): nat {
    match p
    case Done => 0
    case Then(h, t) => PieceSize(h) + PatSize(t)
  }

  /** `p` followed by `q`. */
  function Append(p: Pat, q: Pat): (r: Pat)
    ensures PatSize(r) == PatSize(p) + PatSize(q)
  {
    match p
    case Done => q
    case Then(h, t) => Then(h, Append(t, q))
  }

  /** `$` without MULTILINE: at the end, or just before a final newline. */
  predicate AtEnd(s: string, i: nat) {
    i == |s| || (i == |s| - 1 && s[i] == '\n')
  }

  /** How many characters of class `k` follow position `i`, at most `cap`. */
  function Count(k: CharClass, s: string, i: nat, cap: nat): (n: nat)
    requires i <= |s|
    ensures n <= cap && i + n <= |s|
    ensures forall j :: i <= j < i + n ==> InClass(s[j], k)
    ensures n == cap || i + n == |s| || !InClass(s[i + n], k)
    decreases cap
  {
    if cap == 0 || i == |s| || !InClass(s[i], k) then 0 else 1 + Count(k, s, i + 1, cap - 1)
  }

  function Cap(hi: Bound, available: nat): nat {
    match hi
    case UpTo(n) => if n < available then n else available
    case Unbounded => available
  }

  /** The first match of `p` at position `i` of `s` in `re`'s priority
      order, or `None`. `ms` holds the positions recorded by the marks
      already passed; the result extends it with the marks of `p`. */
  function Run(p: Pat, s: string, i: nat, ms: seq<nat>): Option<seq<nat>>
    requires i <= |s|
    decreases PatSize(p), 0, 0
  {
    match p
    case Done => Some(ms)
    case Then(Mark, rest) => Run(rest, s, i, ms + [i])
    case Then(EndAnchor, rest) => if AtEnd(s, i) then Run(rest, s, i, ms) else None
    case Then(Alt(l, r), rest) =>
      assert PatSize(Append(l, rest)) < PatSize(p) && PatSize(Append(r, rest)) < PatSize(p);
      var first := Run(Append(l, rest), s, i, ms);
      if first.Some? then first else Run(Append(r, rest), s, i, ms)
    case Then(Rep(k, lo, hi, greedy), rest) =>
      var n := Count(k, s, i, Cap(hi, |s| - i));
      if n < lo then None
      else if greedy then Greedy(rest, s, i, ms, lo, n)
      else Lazy(rest, s, i, ms, lo, n)
  }

  /** A greedy repeat that currently holds `k` characters: try the rest of
      the pattern after them, and give one back while that fails. */
  function Greedy(rest: Pat, s: string, i: nat, ms: seq<nat>, lo: nat, k: nat): Option<seq<nat>>
    requires lo <= k && i + k <= |s|
    decreases PatSize(rest), 1, k
  {
    var r := Run(rest, s, i + k, ms);
    if r.Some? || k == lo then r else Greedy(rest, s, i, ms, lo, k - 1)
  }

  /** A lazy repeat that currently holds `k` characters out of at most `n`:
      try the rest of the pattern, and take one more while that fails. */
  function Lazy(rest: Pat, s: string, i: nat, ms: seq<nat>, k: nat, n: nat): Option<seq<nat>>
    requires k <= n && i + n <= |s|
    decreases PatSize(rest), 1, n - k
  {
    var r := Run(rest, s, i + k, ms);
    if r.Some? || k == n then r else Lazy(rest, s, i, ms, k + 1, n)
  }

  // ---------------------------------------------------------------------
  // The shape of a match: marks are recorded in order, inside the string.

  /** The recorded positions are in order and none is beyond `i`. */
  ghost predicate Ordered(ms: seq<nat>, i: nat) {
    (forall j :: 0 <= j < |ms| ==> ms[j] <= i)
    && (forall j :: 0 < j < |ms| ==> ms[j - 1] <= ms[j])
  }

  /** Marks that sit directly in `p`, not inside an alternative. */
  function MarkCount(p: Pat): nat {
    match p
    case Done => 0
    case Then(Mark, t) => 1 + MarkCount(t)
    case Then(_, t) => MarkCount(t)
  }

  predicate NoMarks(p: Pat) {
    match p
    case Done => true
    case Then(Mark, _) => false
    case Then(Alt(l, r), t) => NoMarks(l) && NoMarks(r) && NoMarks(t)
    case Then(_, t) => NoMarks(t)
  }

  /** Every mark of `p` is outside its alternatives, so every match records
      the same number of positions. */
  predicate FlatMarks(p: Pat) {
    match p
    case Done => true
    case Then(Alt(l, r), t) => NoMarks(l) && NoMarks(r) && FlatMarks(t)
    case Then(_, t) => FlatMarks(t)
  }

  lemma AppendMarks(p: Pat, q: Pat)
    requires NoMarks(p) && FlatMarks(q)
    ensures FlatMarks(Append(p, q)) && MarkCount(Append(p, q)) == MarkCount(q)
  {
    match p
    case Done =>
    case Then(h, t) => AppendMarks(t, q);
  }

  /** The facts a match result keeps about its recorded positions. */
  ghost predicate Shaped(p: Pat, s: string, ms: seq<nat>, r: Option<seq<nat>>) {
    r.Some? ==>
      |ms| <= |r.value| && r.value[..|ms|] == ms && Ordered(r.value, |s|)
      && (FlatMarks(p) ==> |r.value| == |ms| + MarkCount(p))
  }

  lemma OrderedSnoc(ms: seq<nat>, i: nat)
    requires Ordered(ms, i)
    ensures Ordered(ms + [i], i)
  {
  }

  lemma OrderedWiden(ms: seq<nat>, i: nat, j: nat)
    requires Ordered(ms, i) && i <= j
    ensures Ordered(ms, j)
  {
  }

  lemma ShapedMark(rest: Pat, s: string, i: nat, ms: seq<nat>, r: Option<seq<nat>>)
    requires Shaped(rest, s, ms + [i], r)
    ensures Shaped(Then(Mark, rest), s, ms, r)
  {
    if r.Some? {
      assert r.value[..|ms|] == (r.value[..|ms| + 1])[..|ms|];
    }
  }

  /** Every match extends the marks already recorded with positions in
      order and inside the string, and a pattern with flat marks records
      exactly its own marks. */
  lemma {:induction false} RunShape(p: Pat, s: string, i: nat, ms: seq<nat>)
    requires i <= |s| && Ordered(ms, i)
    ensures Shaped(p, s, ms, Run(p, s, i, ms))
    decreases PatSize(p), 0, 0
  {
    match p
    case Done =>
      OrderedWiden(ms, i, |s|);
    case Then(Mark, rest) =>
      OrderedSnoc(ms, i);
      RunShape(rest, s, i, ms + [i]);
      ShapedMark(rest, s, i, ms, Run(rest, s, i, ms + [i]));
    case Then(EndAnchor, rest) =>
      RunShape(rest, s, i, ms);
    case Then(Alt(l, r), rest) =>
      assert PatSize(Append(l, rest)) < PatSize(p) && PatSize(Append(r, rest)) < PatSize(p);
      RunShape(Append(l, rest), s, i, ms);
      RunShape(Append(r, rest), s, i, ms);
      if FlatMarks(p) {
        AppendMarks(l, rest);
        AppendMarks(r, rest);
      }
    case Then(Rep(k, lo, hi, greedy), rest) =>
      var n := Count(k, s, i, Cap(hi, |s| - i));
      assert PatSize(rest) < PatSize(p);
      if n >= lo {
        if greedy {
          GreedyShape(rest, s, i, ms, lo, n);
        } else {
          LazyShape(rest, s, i, ms, lo, n);
        }
      }
  }

  lemma {:induction false} GreedyShape(rest: Pat, s: string, i: nat, ms: seq<nat>, lo: nat, k: nat)
    requires lo <= k && i + k <= |s| && Ordered(ms, i)
    ensures Shaped(rest, s, ms, Greedy(rest, s, i, ms, lo, k))
    decreases PatSize(rest), 1, k
  {
    OrderedWiden(ms, i, i + k);
    RunShape(rest, s, i + k, ms);
    if k > lo {
      GreedyShape(rest, s, i, ms, lo, k - 1);
    }
  }

  lemma {:induction false} LazyShape(rest: Pat, s: string, i: nat, ms: seq<nat>, k: nat, n: nat)
    requires k <= n && i + n <= |s| && Ordered(ms, i)
    ensures Shaped(rest, s, ms, Lazy(rest, s, i, ms, k, n))
    decreases PatSize(rest), 1, n - k
  {
    OrderedWiden(ms, i, i + k);
    RunShape(rest, s, i + k, ms);
    if k < n {
      LazyShape(rest, s, i, ms, k + 1, n);
    }
  }

  // ---------------------------------------------------------------------
  // Rewriting a run one piece at a time.

  lemma AppendAssoc(a: Pat, b: Pat, c: Pat)
    ensures Append(Append(a, b), c) == Append(a, Append(b, c))
  {
    match a
    case Done =>
    case Then(h, t) => AppendAssoc(t, b, c);
  }

  /** A count that stops where `Count` stops is `Count`. */
  lemma CountIs(k: CharClass, s: string, i: nat, cap: nat, n: nat)
    requires i <= |s| && n <= cap && i + n <= |s|
    requires forall j :: i <= j < i + n ==> InClass(s[j], k)
    requires n == cap || i + n == |s| || !InClass(s[i + n], k)
    ensures Count(k, s, i, cap) == n
    decreases cap
  {
    if n > 0 {
      CountIs(k, s, i + 1, cap - 1, n - 1);
    }
  }

  /** One character of class `k`, taken exactly once. */
  /** `p` at `i`, starting with marks `ms`, gives `r`. Chains of steps are
      stated with it so that no concrete pattern is unfolded on the way. */
  ghost predicate RunIs(p: Pat, s: string, i: nat, ms: seq<nat>, r: Option<seq<nat>>)
    requires i <= |s|
  {
    Run(p, s, i, ms) == r
  }

  /** A mark records the current position and takes no characters. */
  lemma RunMark(rest: Pat, s: string, i: nat, ms: seq<nat>)
    requires i <= |s|
    ensures Run(Then(Mark, rest), s, i, ms) == Run(rest, s, i, ms + [i])
  {
  }

  lemma MarkStep(rest: Pat, s: string, i: nat, ms: seq<nat>, r: Option<seq<nat>>)
    requires i <= |s| && RunIs(rest, s, i, ms + [i], r)
    ensures RunIs(Then(Mark, rest), s, i, ms, r)
  {
  }

  lemma RunOne(k: CharClass, g: bool, rest: Pat, s: string, i: nat, ms: seq<nat>)
    requires i <= |s|
    ensures Run(Then(Rep(k, 1, UpTo(1), g), rest), s, i, ms)
         == if i < |s| && InClass(s[i], k) then Run(rest, s, i + 1, ms) else None
  {
  }

  lemma RunLit(c: char, rest: Pat, s: string, i: nat, ms: seq<nat>)
    requires i <= |s|
    ensures Run(Then(Lit(c), rest), s, i, ms)
         == if i < |s| && s[i] == c then Run(rest, s, i + 1, ms) else None
  {
    RunOne(OneOf([c]), true, rest, s, i, ms);
  }

  /** `k?`: with the character when the rest matches after it, else without. */
  lemma RunMaybe(k: CharClass, rest: Pat, s: string, i: nat, ms: seq<nat>)
    requires i <= |s|
    ensures Run(Then(Maybe(k), rest), s, i, ms)
         == if i < |s| && InClass(s[i], k) && Run(rest, s, i + 1, ms).Some?
            then Run(rest, s, i + 1, ms) else Run(rest, s, i, ms)
  {
    var cap := Cap(UpTo(1), |s| - i);
    if i < |s| && InClass(s[i], k) {
      CountIs(k, s, i, cap, 1);
      assert Greedy(rest, s, i, ms, 0, 0) == Run(rest, s, i, ms);
    } else {
      CountIs(k, s, i, cap, 0);
    }
  }

  /** `k{n}` followed by `rest`. */
  lemma RunExact(k: CharClass, n: nat, rest: Pat, s: string, i: nat, ms: seq<nat>)
    requires i <= |s|
    ensures Run(Then(Rep(k, n, UpTo(n), true), rest), s, i, ms)
         == if i + n <= |s| && (forall j :: i <= j < i + n ==> InClass(s[j], k))
            then Run(rest, s, i + n, ms) else None
  {
    var m := Count(k, s, i, Cap(UpTo(n), |s| - i));
    if i + n <= |s| && (forall j :: i <= j < i + n ==> InClass(s[j], k)) {
      CountIs(k, s, i, Cap(UpTo(n), |s| - i), n);
    }
  }

  /** A greedy repeat whose longest run lets the rest match takes it. */
  lemma GreedyTop(rest: Pat, s: string, i: nat, ms: seq<nat>, lo: nat, k: nat)
    requires lo <= k && i + k <= |s| && Run(rest, s, i + k, ms).Some?
    ensures Greedy(rest, s, i, ms, lo, k) == Run(rest, s, i + k, ms)
  {
  }

  /** The same, seen from the repeat: it takes its longest run. */
  lemma RepTop(k: CharClass, lo: nat, hi: Bound, rest: Pat, s: string, i: nat, ms: seq<nat>, n: nat)
    requires i <= |s| && Count(k, s, i, Cap(hi, |s| - i)) == n && lo <= n
    requires Run(rest, s, i + n, ms).Some?
    ensures Run(Then(Rep(k, lo, hi, true), rest), s, i, ms) == Run(rest, s, i + n, ms)
  {
    GreedyTop(rest, s, i, ms, lo, n);
  }

  /** Giving back characters over which the rest cannot match changes nothing. */
  lemma {:induction false} GreedyDown(rest: Pat, s: string, i: nat, ms: seq<nat>, lo: nat, k0: nat, k: nat)
    requires lo <= k0 <= k && i + k <= |s|
    requires forall p :: i + k0 < p <= i + k ==> Run(rest, s, p, ms) == None
    ensures Greedy(rest, s, i, ms, lo, k) == Greedy(rest, s, i, ms, lo, k0)
    decreases k
  {
    if k > k0 {
      assert Run(rest, s, i + k, ms) == None;
      GreedyDown(rest, s, i, ms, lo, k0, k - 1);
    }
  }

  /** A greedy repeat fails when the rest fails after every allowed run. */
  lemma {:induction false} GreedyFails(rest: Pat, s: string, i: nat, ms: seq<nat>, lo: nat, k: nat)
    requires lo <= k && i + k <= |s|
    requires forall p :: i + lo <= p <= i + k ==> Run(rest, s, p, ms) == None
    ensures Greedy(rest, s, i, ms, lo, k) == None
    decreases k
  {
    assert Run(rest, s, i + k, ms) == None;
    if k > lo {
      GreedyFails(rest, s, i, ms, lo, k - 1);
    }
  }

  /** When the rest fails after every shorter run, a greedy repeat gives
      whatever the rest gives after its longest run. */
  lemma GreedyOnlyTop(rest: Pat, s: string, i: nat, ms: seq<nat>, lo: nat, k: nat)
    requires lo <= k && i + k <= |s|
    requires forall p :: i + lo <= p < i + k ==> Run(rest, s, p, ms) == None
    ensures Greedy(rest, s, i, ms, lo, k) == Run(rest, s, i + k, ms)
  {
    if Run(rest, s, i + k, ms).None? {
      GreedyFails(rest, s, i, ms, lo, k);
    }
  }

  /** The same, seen from the repeat. */
  lemma RepOnlyTop(k: CharClass, lo: nat, hi: Bound, rest: Pat, s: string, i: nat, ms: seq<nat>, n: nat)
    requires i <= |s| && Count(k, s, i, Cap(hi, |s| - i)) == n
    requires forall p :: i + lo <= p < i + n ==> Run(rest, s, p, ms) == None
    ensures Run(Then(Rep(k, lo, hi, true), rest), s, i, ms)
         == if n < lo then None else Run(rest, s, i + n, ms)
  {
    if lo <= n {
      GreedyOnlyTop(rest, s, i, ms, lo, n);
    }
  }

  /** A lazy repeat fails when the rest fails after every allowed run. */
  lemma {:induction false} LazyFails(rest: Pat, s: string, i: nat, ms: seq<nat>, k: nat, n: nat)
    requires k <= n && i + n <= |s|
    requires forall p :: i + k <= p <= i + n ==> Run(rest, s, p, ms) == None
    ensures Lazy(rest, s, i, ms, k, n) == None
    decreases n - k
  {
    assert Run(rest, s, i + k, ms) == None;
    if k < n {
      LazyFails(rest, s, i, ms, k + 1, n);
    }
  }

  /** `c?` for a single character `c`. */
  lemma RunMaybeChar(c: char, rest: Pat, s: string, i: nat, ms: seq<nat>)
    requires i <= |s|
    ensures Run(Then(Maybe(OneOf([c])), rest), s, i, ms)
         == if i < |s| && s[i] == c && Run(rest, s, i + 1, ms).Some?
            then Run(rest, s, i + 1, ms) else Run(rest, s, i, ms)
  {
    RunMaybe(OneOf([c]), rest, s, i, ms);
    if i < |s| {
      InOneOf(s[i], c);
    }
  }

  /** A one-character class holds just that character. */
  lemma InOneOf(c: char, d: char)
    ensures InClass(c, OneOf([d])) <==> c == d
  {
    if c in [d] {
      assert [d][0] == d;
    }
  }

  /** A lazy repeat takes the shortest run after which the rest matches. */
  lemma {:induction false} LazyFirst(rest: Pat, s: string, i: nat, ms: seq<nat>, k: nat, n: nat, j: nat)
    requires k <= j <= n && i + n <= |s|
    requires forall p :: i + k <= p < i + j ==> Run(rest, s, p, ms) == None
    requires Run(rest, s, i + j, ms).Some? || j == n
    ensures Lazy(rest, s, i, ms, k, n) == Run(rest, s, i + j, ms)
    decreases j - k
  {
    if k < j {
      assert Run(rest, s, i + k, ms) == None;
      LazyFirst(rest, s, i, ms, k + 1, n, j);
    }
  }

  /** `p` matches nowhere at or after position `i`, whatever marks it starts with. */
  ghost predicate NeverFrom(p: Pat, s: string, i: nat) {
    forall j: nat, ms: seq<nat> :: i <= j <= |s| ==> Run(p, s, j, ms) == None
  }

  /** Whatever comes first, a pattern cannot match when its ending cannot. */
  lemma {:induction false} RunAppendNever(x: Pat, rest: Pat, s: string, i: nat, j: nat, ms: seq<nat>)
    requires NeverFrom(rest, s, i) && i <= j <= |s|
    ensures Run(Append(x, rest), s, j, ms) == None
    decreases PatSize(x)
  {
    match x
    case Done =>
    case Then(Mark, t) =>
      RunAppendNever(t, rest, s, i, j, ms + [j]);
    case Then(EndAnchor, t) =>
      RunAppendNever(t, rest, s, i, j, ms);
    case Then(Alt(l, r), t) =>
      AppendAssoc(l, t, rest);
      AppendAssoc(r, t, rest);
      assert PatSize(Append(l, t)) < PatSize(x) && PatSize(Append(r, t)) < PatSize(x);
      RunAppendNever(Append(l, t), rest, s, i, j, ms);
      RunAppendNever(Append(r, t), rest, s, i, j, ms);
    case Then(Rep(k, lo, hi, greedy), t) =>
      var n := Count(k, s, j, Cap(hi, |s| - j));
      assert PatSize(t) < PatSize(x);
      forall p | j <= p <= j + n
        ensures Run(Append(t, rest), s, p, ms) == None
      {
        RunAppendNever(t, rest, s, i, p, ms);
      }
      if n >= lo {
        if greedy {
          GreedyFails(Append(t, rest), s, j, ms, lo, n);
        } else {
          LazyFails(Append(t, rest), s, j, ms, lo, n);
        }
      }
  }

  lemma NeverFromAppend(x: Pat, rest: Pat, s: string, i: nat)
    requires NeverFrom(rest, s, i)
    ensures NeverFrom(Append(x, rest), s, i)
  {
    forall j: nat, ms: seq<nat> | i <= j <= |s|
      ensures Run(Append(x, rest), s, j, ms) == None
    {
      RunAppendNever(x, rest, s, i, j, ms);
    }
  }

  lemma NeverFromThen(x: Piece, rest: Pat, s: string, i: nat)
    requires NeverFrom(rest, s, i)
    ensures NeverFrom(Then(x, rest), s, i)
  {
    NeverFromAppend(Then(x, Done), rest, s, i);
    assert Append(Then(x, Done), rest) == Then(x, rest);
  }
}
