/** The chat-line pattern of `leer_log_whatsapp`
    (src/whatsapp_loader.py, lines 20-23):

      ^\[?(\d{1,4}[/-]\d{1,2}[/-]\d{1,4})[,\s]+
      (\d{1,2}:\d{2}(?::\d{2})?(?:\s?[apAP]\.?m\.?)?)\]?:?[\s-]*(.*?):\s(.*)$

    written as a `Regex.Pat`, and a direct left-to-right scanner that
    computes the same four groups without backtracking. */
module LinePattern {
  import opened Chars
  import opened Optional
  import opened Regex

  /** The four groups: date, time, author and text. */
  datatype Groups = Groups(date: string, time: string, author: string, text: string)

  // ---------------------------------------------------------------------
  // The pattern, from its end backwards.

  /** `(.*)$` */
  const TextTail: Pat :=
    Then(Mark, Then(Rep(NotNewline, 0, Unbounded, true), Then(Mark, Then(EndAnchor, Done))))

  /** `:\s(.*)$` after the author group has closed. */
  const ColonTail: Pat :=
    Then(Mark, Then(Lit(':'), Then(Rep(Space, 1, UpTo(1), true), TextTail)))

  /** `(.*?):\s(.*)$` */
  const AuthorTail: Pat :=
    Then(Mark, Then(Rep(NotNewline, 0, Unbounded, false), ColonTail))

  /** `[\s-]*` and the rest. */
  const DashTail: Pat := Then(Rep(SpaceOr("-"), 0, Unbounded, true), AuthorTail)

  /** `:?[\s-]*` and the rest. */
  const ColonDashTail: Pat := Then(Maybe(OneOf(":")), DashTail)

  /** `\]?:?[\s-]*` and the rest: what may sit between the time and the author. */
  const DecorTail: Pat := Then(Maybe(OneOf("]")), ColonDashTail)

  /** `(?::\d{2})` */
  const Seconds: Pat := Then(Lit(':'), Then(Rep(Digit, 2, UpTo(2), true), Done))

  /** `(?:\s?[apAP]\.?m\.?)`: only a lower-case `m` is accepted. */
  const Meridiem: Pat :=
    Then(Maybe(Space), Then(Rep(OneOf("apAP"), 1, UpTo(1), true),
      Then(Maybe(OneOf(".")), Then(Lit('m'), Then(Maybe(OneOf(".")), Done)))))

  const TimeClose: Pat := Then(Mark, DecorTail)
  const MeridiemTail: Pat := Then(Opt(Meridiem), TimeClose)
  const SecondsTail: Pat := Then(Opt(Seconds), MeridiemTail)

  /** `\d{1,2}:\d{2}` followed by `k`. */
  function HourMinutesThen(k: Pat): Pat {
    Then(Rep(Digit, 1, UpTo(2), true), ColonDigitsThen(k))
  }

  /** `(\d{1,2}:\d{2}(?::\d{2})?(?:\s?[apAP]\.?m\.?)?)` and the rest. */
  const TimeTail: Pat := Then(Mark, HourMinutesThen(SecondsTail))

  /** `[,\s]+` and the rest. */
  const SepTail: Pat := Then(Rep(SpaceOr(","), 1, Unbounded, true), TimeTail)

  const DateClose: Pat := Then(Mark, SepTail)
  const YearTail: Pat := Then(Rep(Digit, 1, UpTo(4), true), DateClose)
  const Slash2Tail: Pat := Then(Rep(OneOf("/-"), 1, UpTo(1), true), YearTail)
  const MonthTail: Pat := Then(Rep(Digit, 1, UpTo(2), true), Slash2Tail)
  const Slash1Tail: Pat := Then(Rep(OneOf("/-"), 1, UpTo(1), true), MonthTail)

  /** `(\d{1,4}[/-]\d{1,2}[/-]\d{1,4})` and the rest. */
  const DateTail: Pat := Then(Mark, Then(Rep(Digit, 1, UpTo(4), true), Slash1Tail))

  /** The whole pattern; `^` is implied by matching at position 0. */
  const Pattern: Pat := Then(Maybe(OneOf("[")), DateTail)

  // ---------------------------------------------------------------------
  // The reference scanner.

  predicate NoNewline(s: string) {
    forall j :: 0 <= j < |s| ==> s[j] != '\n'
  }

  /** A colon followed by whitespace starts at `j`. */
  predicate ColonSpaceAt(s: string, j: int) {
    0 <= j && j + 1 < |s| && s[j] == ':' && IsSpace(s[j + 1])
  }

  /** The first colon followed by whitespace at or after `i`. */
  function FirstColonSpace(s: string, i: nat): (r: Option<nat>)
    requires i <= |s|
    ensures r.Some? ==> i <= r.value && ColonSpaceAt(s, r.value)
                        && forall j :: i <= j < r.value ==> !ColonSpaceAt(s, j)
    ensures r.None? ==> forall j :: i <= j ==> !ColonSpaceAt(s, j)
    decreases |s| - i
  {
    if i + 1 >= |s| then None
    else if ColonSpaceAt(s, i) then Some(i)
    else FirstColonSpace(s, i + 1)
  }

  /** No colon in `s[p..q]` means no new colon-and-whitespace starts there. */
  lemma {:induction false} FirstColonSpaceSkip(s: string, p: nat, q: nat)
    requires p <= q <= |s|
    requires forall j :: p <= j < q ==> s[j] != ':'
    ensures FirstColonSpace(s, p) == FirstColonSpace(s, q)
    decreases q - p
  {
    if p < q {
      FirstColonSpaceSkip(s, p + 1, q);
    }
  }

  predicate SpaceOrDash(c: char) {
    IsSpace(c) || c == '-'
  }

  /** The position after the whitespace and dashes that start at `p`. */
  function SkipSpaceDash(s: string, p: nat): (q: nat)
    requires p <= |s|
    ensures p <= q <= |s|
    ensures forall j :: p <= j < q ==> SpaceOrDash(s[j])
    ensures q == |s| || !SpaceOrDash(s[q])
    decreases |s| - p
  {
    if p < |s| && SpaceOrDash(s[p]) then SkipSpaceDash(s, p + 1) else p
  }

  /** Where the author starts after an optional colon and `[\s-]*` at `b`:
      as far right as possible when a colon-and-whitespace follows there;
      otherwise at the optional colon itself when whitespace follows it. */
  function StartAfterColon(s: string, b: nat): (a: Option<nat>)
    requires b <= |s|
    ensures a.Some? ==> b <= a.value <= |s| && FirstColonSpace(s, a.value).Some?
  {
    var c := if b < |s| && s[b] == ':' then b + 1 else b;
    var q := SkipSpaceDash(s, c);
    if FirstColonSpace(s, q).Some? then Some(q)
    else if c == b + 1 && ColonSpaceAt(s, b) then Some(b)
    else None
  }

  /** Where the author starts when the time ends at `t`: after an optional
      `]`, an optional colon and any whitespace and dashes. */
  function AuthorStart(s: string, t: nat): (a: Option<nat>)
    requires t <= |s|
    ensures a.Some? ==> t <= a.value <= |s| && FirstColonSpace(s, a.value).Some?
  {
    var b := if t < |s| && s[t] == ']' then t + 1 else t;
    StartAfterColon(s, b)
  }

  lemma StartAfterColonNone(s: string, b: nat)
    requires b <= |s| && StartAfterColon(s, b).None?
    ensures forall j :: b <= j ==> !ColonSpaceAt(s, j)
  {
    var c := if b < |s| && s[b] == ':' then b + 1 else b;
    var q := SkipSpaceDash(s, c);
    forall j | b <= j
      ensures !ColonSpaceAt(s, j)
    {
      if c <= j < q {
        assert SpaceOrDash(s[j]);
      }
    }
  }

  /** No author can start after `t` exactly when no colon-and-whitespace
      follows `t`. */
  lemma AuthorStartNone(s: string, t: nat)
    requires t <= |s|
    ensures AuthorStart(s, t).None? <==> forall j :: t <= j ==> !ColonSpaceAt(s, j)
  {
    var b := if t < |s| && s[t] == ']' then t + 1 else t;
    if AuthorStart(s, t).None? {
      StartAfterColonNone(s, b);
    } else {
      var a := AuthorStart(s, t).value;
      assert ColonSpaceAt(s, FirstColonSpace(s, a).value);
    }
  }

  /** The number of digits starting at `i`, at most `cap`. */
  function Digits(s: string, i: nat, cap: nat): (n: nat)
    requires i <= |s|
    ensures n <= cap && i + n <= |s|
    ensures forall j :: i <= j < i + n ==> IsDigit(s[j])
    ensures n == cap || i + n == |s| || !IsDigit(s[i + n])
    decreases cap
  {
    if cap == 0 || i == |s| || !IsDigit(s[i]) then 0 else 1 + Digits(s, i + 1, cap - 1)
  }

  /** `Digits` is the engine's count of `\d{1,cap}`. */
  lemma DigitsCount(s: string, i: nat, cap: nat)
    requires i <= |s|
    ensures Count(Digit, s, i, Cap(UpTo(cap), |s| - i)) == Digits(s, i, cap)
  {
    CountIs(Digit, s, i, Cap(UpTo(cap), |s| - i), Digits(s, i, cap));
  }

  /** The position after an optional `:ss` at `m`. */
  function SecondsEnd(s: string, m: nat): (e: nat)
    requires m <= |s|
    ensures e == m || (e == m + 3 && e <= |s| && s[m] == ':' && IsDigit(s[m + 1]) && IsDigit(s[m + 2]))
  {
    if ColonDigitsAt(s, m) then m + 3 else m
  }

  predicate IsMeridiemLetter(c: char) {
    c == 'a' || c == 'p' || c == 'A' || c == 'P'
  }

  /** The position after an optional am/pm marker at `p`: an optional
      whitespace character, one of `apAP`, an optional dot, a lower-case
      `m` and an optional dot. */
  function MeridiemEnd(s: string, p: nat): (e: nat)
    requires p <= |s|
    ensures p <= e <= |s|
  {
    var l := if p + 1 < |s| && IsSpace(s[p]) && IsMeridiemLetter(s[p + 1]) then p + 2
             else if p < |s| && IsMeridiemLetter(s[p]) then p + 1
             else p;
    if l == p then p
    else
      var d := MPos(s, l);
      if MAt(s, d) then AfterM(s, d) else p
  }

  /** Where the time group that starts at `t0` ends, if it matches there:
      one or two digits, a colon, two digits, then optional seconds and an
      optional am/pm marker. */
  function TimeEnd(s: string, t0: nat): (r: Option<nat>)
    requires t0 <= |s|
    ensures r.Some? ==> t0 < r.value <= |s|
  {
    if HourMinutesAt(s, t0) then Some(MeridiemEnd(s, SecondsEnd(s, MinutesEnd(s, t0)))) else None
  }

  /** One or two digits, a colon and two digits start at `t0`. */
  predicate HourMinutesAt(s: string, t0: nat)
    requires t0 <= |s|
  {
    var h := Digits(s, t0, 2);
    h > 0 && t0 + h < |s| && s[t0 + h] == ':' && Digits(s, t0 + h + 1, 2) == 2
  }

  /** The position after the hours, the colon and the minutes. */
  function MinutesEnd(s: string, t0: nat): (m: nat)
    requires t0 <= |s| && HourMinutesAt(s, t0)
    ensures t0 + 4 <= m <= |s|
  {
    t0 + Digits(s, t0, 2) + 3
  }

  lemma MeridiemNoColon(s: string, p: nat)
    requires p <= |s|
    ensures forall j :: p <= j < MeridiemEnd(s, p) ==> s[j] != ':'
  {
  }

  /** A time never holds a colon followed by whitespace. */
  lemma TimeEndNoColonSpace(s: string, t0: nat)
    requires t0 <= |s| && TimeEnd(s, t0).Some?
    ensures forall j :: t0 <= j < TimeEnd(s, t0).value ==> !ColonSpaceAt(s, j)
  {
    var m := MinutesEnd(s, t0);
    var sec := SecondsEnd(s, m);
    MeridiemNoColon(s, sec);
    var h := Digits(s, t0, 2);
    assert forall j :: t0 <= j < m ==> j == t0 + h || IsDigit(s[j]);
    assert forall j :: m <= j < sec ==> j == m || IsDigit(s[j]);
  }

  // ---------------------------------------------------------------------
  // The engine on the pattern, one layer at a time, for lines without a
  // newline (as `readlines` delivers them).

  /** What the author-and-text part records when it starts at `i`. */
  function AuthorMarks(s: string, i: nat, ms: seq<nat>): Option<seq<nat>>
    requires i <= |s|
  {
    match FirstColonSpace(s, i)
    case None => None
    case Some(j) => Some(ms + [i, j, j + 2, |s|])
  }

  lemma TextTailRun(s: string, p: nat, ms: seq<nat>)
    requires NoNewline(s) && p <= |s|
    ensures Run(TextTail, s, p, ms) == Some(ms + [p, |s|])
  {
    var ms1 := ms + [p];
    var n := |s| - p;
    CountIs(NotNewline, s, p, Cap(Unbounded, |s| - p), n);
    var k := Then(Mark, Then(EndAnchor, Done));
    var rep := Then(Rep(NotNewline, 0, Unbounded, true), k);
    assert Run(TextTail, s, p, ms) == Run(rep, s, p, ms1);
    assert Run(rep, s, p, ms1) == Greedy(k, s, p, ms1, 0, n);
    assert Run(k, s, |s|, ms1) == Some(ms1 + [|s|]);
    GreedyTop(k, s, p, ms1, 0, n);
    assert ms1 + [|s|] == ms + [p, |s|];
  }

  lemma ColonTailRun(s: string, p: nat, ms: seq<nat>)
    requires NoNewline(s) && p <= |s|
    ensures Run(ColonTail, s, p, ms)
         == if ColonSpaceAt(s, p) then Some(ms + [p, p + 2, |s|]) else None
  {
    var ms1 := ms + [p];
    var k := Then(Rep(Space, 1, UpTo(1), true), TextTail);
    RunLit(':', k, s, p, ms1);
    if p < |s| && s[p] == ':' {
      RunOne(Space, true, TextTail, s, p + 1, ms1);
      if ColonSpaceAt(s, p) {
        TextTailRun(s, p + 2, ms1);
        assert ms1 + [p + 2, |s|] == ms + [p, p + 2, |s|];
      }
    }
  }

  /** The colon-and-text part as the lazy author sees it: it matches exactly
      at a colon followed by whitespace. */
  ghost predicate ColonLike(c: Pat, s: string, lo: nat, ms: seq<nat>) {
    forall p: nat :: lo <= p <= |s| ==>
      Run(c, s, p, ms) == if ColonSpaceAt(s, p) then Some(ms + [p, p + 2, |s|]) else None
  }

  lemma LazyColon(c: Pat, s: string, i: nat, ms: seq<nat>, k: nat)
    requires i + k <= |s| && ColonLike(c, s, i + k, ms)
    ensures Lazy(c, s, i, ms, k, |s| - i)
         == match FirstColonSpace(s, i + k)
            case None => None
            case Some(j) => Some(ms + [j, j + 2, |s|])
  {
    var n := |s| - i;
    var f := FirstColonSpace(s, i + k);
    var j := if f.Some? then f.value - i else n;
    assert forall p :: i + k <= p < i + j ==> Run(c, s, p, ms) == None;
    LazyFirst(c, s, i, ms, k, n, j);
  }

  lemma AuthorLazy(s: string, i: nat, ms: seq<nat>, k: nat)
    requires NoNewline(s) && i + k <= |s|
    ensures Lazy(ColonTail, s, i, ms, k, |s| - i)
         == match FirstColonSpace(s, i + k)
            case None => None
            case Some(j) => Some(ms + [j, j + 2, |s|])
  {
    forall p: nat | i + k <= p <= |s|
      ensures Run(ColonTail, s, p, ms) == if ColonSpaceAt(s, p) then Some(ms + [p, p + 2, |s|]) else None
    {
      ColonTailRun(s, p, ms);
    }
    LazyColon(ColonTail, s, i, ms, k);
  }

  /** The lazy author stops at the first colon followed by whitespace. */
  lemma AuthorTailRun(s: string, i: nat, ms: seq<nat>)
    requires NoNewline(s) && i <= |s|
    ensures Run(AuthorTail, s, i, ms) == AuthorMarks(s, i, ms)
  {
    var ms1 := ms + [i];
    var r := AuthorMarks(s, i, ms);
    AuthorLazy(s, i, ms1, 0);
    match FirstColonSpace(s, i)
    case None =>
    case Some(j) => assert ms1 + [j, j + 2, |s|] == ms + [i, j, j + 2, |s|];
    LazyAllStep(ColonTail, s, i, ms1, r);
    MarkStep(Then(Rep(NotNewline, 0, Unbounded, false), ColonTail), s, i, ms, r);
  }

  /** A lazy `.*` over a line without a line break may stop anywhere. */
  lemma LazyAllStep(c: Pat, s: string, i: nat, ms: seq<nat>, r: Option<seq<nat>>)
    requires NoNewline(s) && i <= |s| && Lazy(c, s, i, ms, 0, |s| - i) == r
    ensures RunIs(Then(Rep(NotNewline, 0, Unbounded, false), c), s, i, ms, r)
  {
    CountIs(NotNewline, s, i, Cap(Unbounded, |s| - i), |s| - i);
  }

  lemma DashTailRun(s: string, p: nat, ms: seq<nat>)
    requires NoNewline(s) && p <= |s|
    ensures Run(DashTail, s, p, ms) == AuthorMarks(s, SkipSpaceDash(s, p), ms)
  {
    var q := SkipSpaceDash(s, p);
    var n := q - p;
    CountIs(SpaceOr("-"), s, p, Cap(Unbounded, |s| - p), n);
    assert Run(DashTail, s, p, ms) == Greedy(AuthorTail, s, p, ms, 0, n);
    AuthorTailRun(s, q, ms);
    if AuthorMarks(s, q, ms).Some? {
      GreedyTop(AuthorTail, s, p, ms, 0, n);
    } else {
      forall p' | p <= p' <= q
        ensures Run(AuthorTail, s, p', ms) == None
      {
        FirstColonSpaceSkip(s, p', q);
        AuthorTailRun(s, p', ms);
      }
      GreedyFails(AuthorTail, s, p, ms, 0, n);
    }
  }

  /** What the author-and-text part records when the author starts where
      `a` says, if anywhere. */
  function MarksFrom(s: string, a: Option<nat>, ms: seq<nat>): Option<seq<nat>>
    requires a.Some? ==> a.value <= |s|
  {
    match a
    case None => None
    case Some(i) => AuthorMarks(s, i, ms)
  }

  /** The whitespace-and-dashes part, as the optional colon before it sees
      it from `lo` on. */
  ghost predicate DashLike(d: Pat, s: string, lo: nat, ms: seq<nat>) {
    forall p: nat :: lo <= p <= |s| ==> Run(d, s, p, ms) == AuthorMarks(s, SkipSpaceDash(s, p), ms)
  }

  lemma MaybeColonDash(d: Pat, s: string, b: nat, ms: seq<nat>)
    requires b <= |s| && DashLike(d, s, b, ms)
    ensures Run(Then(Maybe(OneOf([':'])), d), s, b, ms) == MarksFrom(s, StartAfterColon(s, b), ms)
  {
    RunMaybe(OneOf([':']), d, s, b, ms);
    if b < |s| {
      InOneOf(s[b], ':');
    }
    if b < |s| && s[b] == ':' {
      var q := SkipSpaceDash(s, b + 1);
      FirstColonSpaceSkip(s, b + 1, q);
      assert SkipSpaceDash(s, b) == b;
      assert Run(d, s, b + 1, ms) == AuthorMarks(s, q, ms);
      assert Run(d, s, b, ms) == AuthorMarks(s, b, ms);
    }
  }

  lemma ColonDashTailRun(s: string, b: nat, ms: seq<nat>)
    requires NoNewline(s) && b <= |s|
    ensures Run(ColonDashTail, s, b, ms) == MarksFrom(s, StartAfterColon(s, b), ms)
  {
    forall p: nat | b <= p <= |s|
      ensures Run(DashTail, s, p, ms) == AuthorMarks(s, SkipSpaceDash(s, p), ms)
    {
      DashTailRun(s, p, ms);
    }
    assert ":" == [':'];
    MaybeColonDash(DashTail, s, b, ms);
  }

  /** The author-and-text part records something exactly when an author
      start was found. */
  lemma MarksFromSome(s: string, a: Option<nat>, ms: seq<nat>)
    requires a.Some? ==> a.value <= |s| && FirstColonSpace(s, a.value).Some?
    ensures MarksFrom(s, a, ms).Some? <==> a.Some?
  {
  }

  /** A `]` cannot start a colon-and-whitespace, so it adds no author
      start. */
  lemma StartAfterBracket(s: string, t: nat)
    requires t < |s| && s[t] == ']' && StartAfterColon(s, t + 1).None?
    ensures StartAfterColon(s, t).None?
  {
    StartAfterColonNone(s, t + 1);
    assert !ColonSpaceAt(s, t);
    var q := SkipSpaceDash(s, t);
    assert FirstColonSpace(s, q).None?;
  }

  lemma DecorTailRun(s: string, t: nat, ms: seq<nat>)
    requires NoNewline(s) && t <= |s|
    ensures Run(DecorTail, s, t, ms) == MarksFrom(s, AuthorStart(s, t), ms)
  {
    RunMaybe(OneOf("]"), ColonDashTail, s, t, ms);
    if t < |s| && s[t] == ']' {
      assert InClass(s[t], OneOf("]"));
      ColonDashTailRun(s, t + 1, ms);
      var a1 := StartAfterColon(s, t + 1);
      assert AuthorStart(s, t) == a1;
      MarksFromSome(s, a1, ms);
      if a1.None? {
        ColonDashTailRun(s, t, ms);
        StartAfterBracket(s, t);
        assert Run(DecorTail, s, t, ms) == Run(ColonDashTail, s, t, ms) == None;
      }
    } else {
      NotBracket(s, t);
      assert Run(DecorTail, s, t, ms) == Run(ColonDashTail, s, t, ms);
      ColonDashTailRun(s, t, ms);
    }
  }

  lemma NotBracket(s: string, t: nat)
    requires t <= |s| && !(t < |s| && s[t] == ']')
    ensures !(t < |s| && InClass(s[t], OneOf("]")))
    ensures AuthorStart(s, t) == StartAfterColon(s, t)
  {
    if t < |s| {
      assert "]" == [']'];
    }
  }

  /** The am/pm group followed by `k`. */
  function MeridiemThen(k: Pat): Pat {
    Then(Maybe(Space), LetterThen(k))
  }

  lemma AppendGroups(k: Pat)
    ensures Append(Meridiem, k) == MeridiemThen(k)
    ensures Append(Seconds, k) == ColonDigitsThen(k)
  {
    var t5 := Then(Maybe(OneOf(".")), Done);
    var t4 := Then(Lit('m'), t5);
    var t3 := Then(Maybe(OneOf(".")), t4);
    var t2 := Then(Rep(OneOf("apAP"), 1, UpTo(1), true), t3);
    assert Append(t5, k) == Then(Maybe(OneOf(".")), k);
    assert Append(t4, k) == Then(Lit('m'), Then(Maybe(OneOf(".")), k));
    assert Append(t3, k) == Then(Maybe(OneOf(".")), Append(t4, k));
    assert Append(t2, k) == Then(Rep(OneOf("apAP"), 1, UpTo(1), true), Append(t3, k));
    assert Append(Then(Rep(Digit, 2, UpTo(2), true), Done), k) == Then(Rep(Digit, 2, UpTo(2), true), k);
  }

  /** `m` and an optional dot, then `k`. */
  function MThen(k: Pat): Pat {
    Then(Lit('m'), Then(Maybe(OneOf(".")), k))
  }

  /** `\.?m\.?` then `k`. */
  function DotMThen(k: Pat): Pat {
    Then(Maybe(OneOf(".")), MThen(k))
  }

  /** The position after `m` at `d` and an optional dot. */
  function AfterM(s: string, d: nat): nat
    requires d < |s|
  {
    if d + 1 < |s| && s[d + 1] == '.' then d + 2 else d + 1
  }

  predicate MAt(s: string, d: nat) {
    d < |s| && s[d] == 'm'
  }

  lemma MRun(k: Pat, s: string, d: nat, ms: seq<nat>)
    requires d <= |s|
    ensures !MAt(s, d) ==> Run(MThen(k), s, d, ms) == None
    ensures MAt(s, d) && Run(k, s, AfterM(s, d), ms).Some? ==> Run(MThen(k), s, d, ms) == Run(k, s, AfterM(s, d), ms)
  {
    RunLit('m', Then(Maybe(OneOf(".")), k), s, d, ms);
    if MAt(s, d) {
      RunMaybeChar('.', k, s, d + 1, ms);
    }
  }

  /** Where `\.?m` finds its `m` after position `l`. */
  function MPos(s: string, l: nat): nat
    requires l <= |s|
  {
    if l < |s| && s[l] == '.' then l + 1 else l
  }

  lemma DotMRun(k: Pat, s: string, l: nat, ms: seq<nat>)
    requires l <= |s|
    ensures !MAt(s, MPos(s, l)) ==> Run(DotMThen(k), s, l, ms) == None
    ensures MAt(s, MPos(s, l)) && Run(k, s, AfterM(s, MPos(s, l)), ms).Some?
            ==> Run(DotMThen(k), s, l, ms) == Run(k, s, AfterM(s, MPos(s, l)), ms)
  {
    RunMaybeChar('.', MThen(k), s, l, ms);
    MRun(k, s, l, ms);
    if l < |s| && s[l] == '.' {
      MRun(k, s, l + 1, ms);
    }
  }

  /** `[apAP]\.?m\.?` then `k`. */
  function LetterThen(k: Pat): Pat {
    Then(Rep(OneOf("apAP"), 1, UpTo(1), true), DotMThen(k))
  }

  lemma InMeridiemLetters(c: char)
    ensures InClass(c, OneOf("apAP")) <==> IsMeridiemLetter(c)
  {
    assert "apAP" == ['a', 'p', 'A', 'P'];
  }

  lemma LetterRun(k: Pat, s: string, i: nat, ms: seq<nat>)
    requires i <= |s|
    ensures Run(LetterThen(k), s, i, ms)
         == if i < |s| && IsMeridiemLetter(s[i]) then Run(DotMThen(k), s, i + 1, ms) else None
  {
    RunOne(OneOf("apAP"), true, DotMThen(k), s, i, ms);
    if i < |s| {
      InMeridiemLetters(s[i]);
    }
  }

  /** What `MeridiemRun` states, for a start `p`. */
  predicate MeridiemSpec(k: Pat, s: string, p: nat, ms: seq<nat>)
    requires p <= |s|
  {
    (MeridiemEnd(s, p) == p ==> Run(MeridiemThen(k), s, p, ms) == None)
    && (MeridiemEnd(s, p) > p && Run(k, s, MeridiemEnd(s, p), ms).Some?
        ==> Run(MeridiemThen(k), s, p, ms) == Run(k, s, MeridiemEnd(s, p), ms))
  }

  /** A marker letter after whitespace: the optional space is taken. */
  lemma SpaceLetterStep(k: Pat, s: string, p: nat, ms: seq<nat>)
    requires p + 1 < |s| && IsSpace(s[p]) && IsMeridiemLetter(s[p + 1])
    ensures Run(MeridiemThen(k), s, p, ms) == Run(DotMThen(k), s, p + 2, ms)
  {
    RunMaybe(Space, LetterThen(k), s, p, ms);
    LetterRun(k, s, p, ms);
    LetterRun(k, s, p + 1, ms);
  }

  /** A marker letter right away: the optional space is skipped. */
  lemma LetterStep(k: Pat, s: string, p: nat, ms: seq<nat>)
    requires p < |s| && IsMeridiemLetter(s[p])
    ensures Run(MeridiemThen(k), s, p, ms) == Run(DotMThen(k), s, p + 1, ms)
  {
    RunMaybe(Space, LetterThen(k), s, p, ms);
    LetterRun(k, s, p, ms);
  }

  lemma MeridiemAfterSpace(k: Pat, s: string, p: nat, ms: seq<nat>)
    requires p + 1 < |s| && IsSpace(s[p]) && IsMeridiemLetter(s[p + 1])
    ensures MeridiemSpec(k, s, p, ms)
  {
    SpaceLetterStep(k, s, p, ms);
    DotMRun(k, s, p + 2, ms);
    SpaceGlue(Run(MeridiemThen(k), s, p, ms), Run(DotMThen(k), s, p + 2, ms), k, s, p, ms);
  }

  /** `LetterGlue` for a marker letter after whitespace. */
  lemma SpaceGlue(a: Option<seq<nat>>, b: Option<seq<nat>>, k: Pat, s: string, p: nat, ms: seq<nat>)
    requires p + 1 < |s| && IsSpace(s[p]) && IsMeridiemLetter(s[p + 1])
    requires a == b
    requires !MAt(s, MPos(s, p + 2)) ==> b == None
    requires MAt(s, MPos(s, p + 2)) && Run(k, s, AfterM(s, MPos(s, p + 2)), ms).Some?
             ==> b == Run(k, s, AfterM(s, MPos(s, p + 2)), ms)
    ensures MeridiemEnd(s, p) == p ==> a == None
    ensures MeridiemEnd(s, p) > p && Run(k, s, MeridiemEnd(s, p), ms).Some? ==> a == Run(k, s, MeridiemEnd(s, p), ms)
  {
  }

  lemma MeridiemAtLetter(k: Pat, s: string, p: nat, ms: seq<nat>)
    requires p < |s| && IsMeridiemLetter(s[p])
    ensures MeridiemSpec(k, s, p, ms)
  {
    LetterStep(k, s, p, ms);
    DotMRun(k, s, p + 1, ms);
    LetterGlue(Run(MeridiemThen(k), s, p, ms), Run(DotMThen(k), s, p + 1, ms), k, s, p, ms);
  }

  /** The bookkeeping that turns the two steps into `MeridiemSpec`, stated
      over plain values so that no pattern is unfolded again. */
  lemma LetterGlue(a: Option<seq<nat>>, b: Option<seq<nat>>, k: Pat, s: string, p: nat, ms: seq<nat>)
    requires p < |s| && IsMeridiemLetter(s[p])
    requires a == b
    requires !MAt(s, MPos(s, p + 1)) ==> b == None
    requires MAt(s, MPos(s, p + 1)) && Run(k, s, AfterM(s, MPos(s, p + 1)), ms).Some?
             ==> b == Run(k, s, AfterM(s, MPos(s, p + 1)), ms)
    ensures MeridiemEnd(s, p) == p ==> a == None
    ensures MeridiemEnd(s, p) > p && Run(k, s, MeridiemEnd(s, p), ms).Some? ==> a == Run(k, s, MeridiemEnd(s, p), ms)
  {
  }

  lemma MeridiemAbsent(k: Pat, s: string, p: nat, ms: seq<nat>)
    requires p <= |s|
    requires !(p + 1 < |s| && IsSpace(s[p]) && IsMeridiemLetter(s[p + 1]))
    requires !(p < |s| && IsMeridiemLetter(s[p]))
    ensures MeridiemSpec(k, s, p, ms)
  {
    RunMaybe(Space, LetterThen(k), s, p, ms);
    LetterRun(k, s, p, ms);
    if p < |s| {
      LetterRun(k, s, p + 1, ms);
    }
  }

  /** The am/pm group takes exactly the marker `MeridiemEnd` finds, and
      matches nothing when there is none. */
  lemma MeridiemRun(k: Pat, s: string, p: nat, ms: seq<nat>)
    requires p <= |s|
    ensures MeridiemEnd(s, p) == p ==> Run(MeridiemThen(k), s, p, ms) == None
    ensures MeridiemEnd(s, p) > p && Run(k, s, MeridiemEnd(s, p), ms).Some?
            ==> Run(MeridiemThen(k), s, p, ms) == Run(k, s, MeridiemEnd(s, p), ms)
  {
    if p + 1 < |s| && IsSpace(s[p]) && IsMeridiemLetter(s[p + 1]) {
      MeridiemAfterSpace(k, s, p, ms);
    } else if p < |s| && IsMeridiemLetter(s[p]) {
      MeridiemAtLetter(k, s, p, ms);
    } else {
      MeridiemAbsent(k, s, p, ms);
    }
  }

  lemma SecondsRun(k: Pat, s: string, m: nat, ms: seq<nat>)
    requires m <= |s|
    ensures Run(ColonDigitsThen(k), s, m, ms)
         == if SecondsEnd(s, m) > m then Run(k, s, m + 3, ms) else None
  {
    ColonDigitsRun(k, s, m, ms);
  }

  /** When no author can follow a time, nothing after the time's start can
      match, whatever the engine gives back. */
  lemma TimeTailNever(s: string, t0: nat, ms: seq<nat>)
    requires NoNewline(s) && t0 <= |s| && TimeEnd(s, t0).Some?
    requires AuthorStart(s, TimeEnd(s, t0).value).None?
    ensures Run(TimeTail, s, t0, ms) == None
  {
    var t := TimeEnd(s, t0).value;
    AuthorStartNone(s, t);
    TimeEndNoColonSpace(s, t0);
    forall j: nat, ms': seq<nat> | t0 <= j <= |s|
      ensures Run(AuthorTail, s, j, ms') == None
    {
      AuthorTailRun(s, j, ms');
    }
    assert NeverFrom(AuthorTail, s, t0);
    NeverFromThen(Rep(SpaceOr("-"), 0, Unbounded, true), AuthorTail, s, t0);
    NeverFromThen(Maybe(OneOf(":")), DashTail, s, t0);
    NeverFromThen(Maybe(OneOf("]")), ColonDashTail, s, t0);
    NeverFromThen(Mark, DecorTail, s, t0);
    NeverFromThen(Opt(Meridiem), TimeClose, s, t0);
    NeverFromThen(Opt(Seconds), MeridiemTail, s, t0);
    HourMinutesNever(SecondsTail, s, t0);
    NeverFromThen(Mark, HourMinutesThen(SecondsTail), s, t0);
  }

  lemma HourMinutesNever(k: Pat, s: string, i: nat)
    requires NeverFrom(k, s, i)
    ensures NeverFrom(HourMinutesThen(k), s, i)
  {
    NeverFromThen(Rep(Digit, 2, UpTo(2), true), k, s, i);
    NeverFromThen(Lit(':'), Then(Rep(Digit, 2, UpTo(2), true), k), s, i);
    NeverFromThen(Rep(Digit, 1, UpTo(2), true), ColonDigitsThen(k), s, i);
  }

  lemma OptMeridiemRun(k: Pat, s: string, p: nat, ms: seq<nat>)
    requires p <= |s| && Run(k, s, MeridiemEnd(s, p), ms).Some?
    ensures Run(Then(Opt(Meridiem), k), s, p, ms) == Run(k, s, MeridiemEnd(s, p), ms)
  {
    AppendGroups(k);
    MeridiemRun(k, s, p, ms);
    assert Append(Done, k) == k;
  }

  lemma OptSecondsRun(k: Pat, s: string, m: nat, ms: seq<nat>)
    requires m <= |s| && Run(k, s, SecondsEnd(s, m), ms).Some?
    ensures Run(Then(Opt(Seconds), k), s, m, ms) == Run(k, s, SecondsEnd(s, m), ms)
  {
    AppendGroups(k);
    SecondsRun(k, s, m, ms);
    assert Append(Done, k) == k;
  }

  /** `:\d{2}` followed by `k`: the minutes, and the seconds group. */
  function ColonDigitsThen(k: Pat): Pat {
    Then(Lit(':'), Then(Rep(Digit, 2, UpTo(2), true), k))
  }

  /** A colon and two digits start at `i`. */
  predicate ColonDigitsAt(s: string, i: nat)
    requires i <= |s|
  {
    i < |s| && s[i] == ':' && Digits(s, i + 1, 2) == 2
  }

  lemma ColonDigitsRun(k: Pat, s: string, i: nat, ms: seq<nat>)
    requires i <= |s|
    ensures Run(ColonDigitsThen(k), s, i, ms)
         == if ColonDigitsAt(s, i) then Run(k, s, i + 3, ms) else None
  {
    RunLit(':', Then(Rep(Digit, 2, UpTo(2), true), k), s, i, ms);
    if i < |s| && s[i] == ':' {
      RunExact(Digit, 2, k, s, i + 1, ms);
      var n := Digits(s, i + 1, 2);
      if n < 2 && i + 3 <= |s| {
        assert !IsDigit(s[i + 1 + n]);
      }
    }
  }

  lemma ColonDigitsIs(k: Pat, s: string, i: nat, ms: seq<nat>, r: Option<seq<nat>>)
    requires i <= |s| && ColonDigitsAt(s, i) && RunIs(k, s, i + 3, ms, r)
    ensures RunIs(ColonDigitsThen(k), s, i, ms, r)
  {
    ColonDigitsRun(k, s, i, ms);
  }

  lemma HourIs(x: Pat, s: string, t0: nat, ms: seq<nat>, r: Option<seq<nat>>)
    requires t0 <= |s| && Digits(s, t0, 2) > 0
    requires RunIs(x, s, t0 + Digits(s, t0, 2), ms, r) && r.Some?
    ensures RunIs(Then(Rep(Digit, 1, UpTo(2), true), x), s, t0, ms, r)
  {
    DigitsCount(s, t0, 2);
    RepTop(Digit, 1, UpTo(2), x, s, t0, ms, Digits(s, t0, 2));
  }

  /** Without hours, a colon and minutes the time group cannot match. */
  lemma HourMinutesFail(k: Pat, s: string, t0: nat, ms: seq<nat>)
    requires t0 <= |s| && !HourMinutesAt(s, t0)
    ensures RunIs(HourMinutesThen(k), s, t0, ms, None)
  {
    var h := Digits(s, t0, 2);
    forall p | t0 + 1 <= p <= t0 + h
      ensures Run(ColonDigitsThen(k), s, p, ms) == None
    {
      ColonDigitsRun(k, s, p, ms);
      if p < t0 + h {
        assert IsDigit(s[p]);
      }
    }
    HourFails(ColonDigitsThen(k), s, t0, ms);
  }

  /** Hours before something that fails after every run of them. */
  lemma HourFails(x: Pat, s: string, t0: nat, ms: seq<nat>)
    requires t0 <= |s|
    requires forall p :: t0 + 1 <= p <= t0 + Digits(s, t0, 2) ==> Run(x, s, p, ms) == None
    ensures RunIs(Then(Rep(Digit, 1, UpTo(2), true), x), s, t0, ms, None)
  {
    var h := Digits(s, t0, 2);
    DigitsCount(s, t0, 2);
    if h > 0 {
      GreedyFails(x, s, t0, ms, 1, h);
    }
  }

  /** When an author follows the time, the engine keeps its first choice
      everywhere in the time group. */
  lemma TimeTailMatch(s: string, t0: nat, ms: seq<nat>)
    requires NoNewline(s) && t0 <= |s| && TimeEnd(s, t0).Some?
    requires AuthorStart(s, TimeEnd(s, t0).value).Some?
    ensures Run(TimeTail, s, t0, ms)
         == AuthorMarks(s, AuthorStart(s, TimeEnd(s, t0).value).value, ms + [t0, TimeEnd(s, t0).value])
  {
    var t := TimeEnd(s, t0).value;
    var m := MinutesEnd(s, t0);
    var sec := SecondsEnd(s, m);
    var ms1 := ms + [t0];
    var r := MarksFrom(s, AuthorStart(s, t), ms1 + [t]);
    assert ms1 + [t] == ms + [t0, t];
    DecorStep(s, t, ms1 + [t]);
    MarkStep(DecorTail, s, t, ms1, r);
    OptMeridiemStep(TimeClose, s, sec, ms1, r);
    OptSecondsStep(MeridiemTail, s, m, ms1, r);
    HourMinutesStep(SecondsTail, s, t0, ms1, r);
    MarkStep(HourMinutesThen(SecondsTail), s, t0, ms, r);
  }

  lemma DecorStep(s: string, t: nat, ms: seq<nat>)
    requires NoNewline(s) && t <= |s|
    ensures RunIs(DecorTail, s, t, ms, MarksFrom(s, AuthorStart(s, t), ms))
  {
    DecorTailRun(s, t, ms);
  }

  lemma OptMeridiemStep(k: Pat, s: string, p: nat, ms: seq<nat>, r: Option<seq<nat>>)
    requires p <= |s| && RunIs(k, s, MeridiemEnd(s, p), ms, r) && r.Some?
    ensures RunIs(Then(Opt(Meridiem), k), s, p, ms, r)
  {
    OptMeridiemRun(k, s, p, ms);
  }

  lemma OptSecondsStep(k: Pat, s: string, m: nat, ms: seq<nat>, r: Option<seq<nat>>)
    requires m <= |s| && RunIs(k, s, SecondsEnd(s, m), ms, r) && r.Some?
    ensures RunIs(Then(Opt(Seconds), k), s, m, ms, r)
  {
    OptSecondsRun(k, s, m, ms);
  }

  /** Hours, colon and minutes, as `HourMinutesAt` reads them. */
  lemma HourMinutesStep(k: Pat, s: string, t0: nat, ms: seq<nat>, r: Option<seq<nat>>)
    requires t0 <= |s| && HourMinutesAt(s, t0) && RunIs(k, s, MinutesEnd(s, t0), ms, r) && r.Some?
    ensures RunIs(HourMinutesThen(k), s, t0, ms, r)
  {
    var h := Digits(s, t0, 2);
    assert MinutesEnd(s, t0) == t0 + h + 3;
    ColonDigitsIs(k, s, t0 + h, ms, r);
    HourIs(ColonDigitsThen(k), s, t0, ms, r);
  }

  /** Where no time group matches, nothing does. */
  lemma TimeTailNoTime(s: string, t0: nat, ms: seq<nat>)
    requires t0 <= |s| && TimeEnd(s, t0).None?
    ensures Run(TimeTail, s, t0, ms) == None
  {
    HourMinutesFail(SecondsTail, s, t0, ms + [t0]);
    MarkStep(HourMinutesThen(SecondsTail), s, t0, ms, None);
  }

  /** The time group and everything after it. */
  lemma TimeTailRun(s: string, t0: nat, ms: seq<nat>)
    requires NoNewline(s) && t0 <= |s|
    ensures Run(TimeTail, s, t0, ms)
         == match TimeEnd(s, t0)
            case None => None
            case Some(t) => MarksFrom(s, AuthorStart(s, t), ms + [t0, t])
  {
    match TimeEnd(s, t0)
    case None => TimeTailNoTime(s, t0, ms);
    case Some(t) =>
      if AuthorStart(s, t).None? {
        TimeTailNever(s, t0, ms);
      } else {
        TimeTailMatch(s, t0, ms);
      }
  }

  // ---------------------------------------------------------------------
  // The separator and the date.

  predicate SepChar(c: char) {
    IsSpace(c) || c == ','
  }

  /** The position after the commas and whitespace that start at `p`. */
  function SepEnd(s: string, p: nat): (q: nat)
    requires p <= |s|
    ensures p <= q <= |s|
    ensures forall j :: p <= j < q ==> SepChar(s[j])
    ensures q == |s| || !SepChar(s[q])
    decreases |s| - p
  {
    if p < |s| && SepChar(s[p]) then SepEnd(s, p + 1) else p
  }

  /** `[,\s]+` takes the whole run of separators: giving some back leaves
      the time group on a separator, where it cannot start. */
  lemma SepTailRun(s: string, p: nat, ms: seq<nat>)
    requires p <= |s|
    ensures Run(SepTail, s, p, ms)
         == if SepEnd(s, p) > p then Run(TimeTail, s, SepEnd(s, p), ms) else None
  {
    var n := SepEnd(s, p) - p;
    CountIs(SpaceOr(","), s, p, Cap(Unbounded, |s| - p), n);
    forall q | p + 1 <= q < p + n
      ensures Run(TimeTail, s, q, ms) == None
    {
      assert !IsDigit(s[q]);
      TimeTailNoTime(s, q, ms);
    }
    RepOnlyTop(SpaceOr(","), 1, Unbounded, TimeTail, s, p, ms, n);
  }

  predicate IsSlash(c: char) {
    c == '/' || c == '-'
  }

  /** `[/-]` followed by `k`. */
  function SlashThen(k: Pat): Pat {
    Then(Rep(OneOf("/-"), 1, UpTo(1), true), k)
  }

  lemma InSlashes(c: char)
    ensures InClass(c, OneOf("/-")) <==> IsSlash(c)
  {
    assert "/-" == ['/', '-'];
  }

  lemma SlashRun(k: Pat, s: string, i: nat, ms: seq<nat>)
    requires i <= |s|
    ensures Run(SlashThen(k), s, i, ms)
         == if i < |s| && IsSlash(s[i]) then Run(k, s, i + 1, ms) else None
  {
    RunOne(OneOf("/-"), true, k, s, i, ms);
    if i < |s| {
      InSlashes(s[i]);
    }
  }

  /** `k` cannot start on any digit after position `i`. */
  ghost predicate FailsOnDigits(k: Pat, s: string, i: nat, ms: seq<nat>) {
    forall q :: i < q < |s| && IsDigit(s[q]) ==> Run(k, s, q, ms) == None
  }

  /** `k` at the position `o` names, or no match. */
  function RunAt(k: Pat, s: string, o: Option<nat>, ms: seq<nat>): Option<seq<nat>>
    requires o.Some? ==> o.value <= |s|
  {
    match o
    case None => None
    case Some(e) => Run(k, s, e, ms)
  }

  /** `y` at `i` is one to `cap` digits, all of them taken, followed by `k`. */
  ghost predicate DigitsLike(y: Pat, k: Pat, cap: nat, s: string, i: nat, ms: seq<nat>)
    requires i <= |s|
  {
    Run(y, s, i, ms) == if Digits(s, i, cap) >= 1 then Run(k, s, i + Digits(s, i, cap), ms) else None
  }

  /** A greedy run of one to `cap` digits followed by something that cannot
      start on a digit keeps all its digits. */
  lemma DigitsRun(k: Pat, cap: nat, s: string, i: nat, ms: seq<nat>)
    requires i <= |s| && FailsOnDigits(k, s, i, ms)
    ensures DigitsLike(Then(Rep(Digit, 1, UpTo(cap), true), k), k, cap, s, i, ms)
  {
    var n := Digits(s, i, cap);
    DigitsCount(s, i, cap);
    forall q | i + 1 <= q < i + n
      ensures Run(k, s, q, ms) == None
    {
      assert IsDigit(s[q]);
    }
    RepOnlyTop(Digit, 1, UpTo(cap), k, s, i, ms, n);
  }

  /** A separator cannot start on a digit. */
  lemma SlashFailsOnDigits(k: Pat, s: string, i: nat, ms: seq<nat>)
    requires i <= |s|
    ensures FailsOnDigits(SlashThen(k), s, i, ms)
  {
    forall q | i < q < |s| && IsDigit(s[q])
      ensures Run(SlashThen(k), s, q, ms) == None
    {
      SlashRun(k, s, q, ms);
    }
  }

  /** The last date field: one to four digits. */
  function Field3Then(k: Pat): Pat {
    Then(Rep(Digit, 1, UpTo(4), true), k)
  }

  /** The middle date field, one or two digits, and a separator before the last. */
  function Field2Then(k: Pat): Pat {
    Then(Rep(Digit, 1, UpTo(2), true), SlashThen(Field3Then(k)))
  }

  /** The first date field, one to four digits, and a separator before the middle one. */
  function Field1Then(k: Pat): Pat {
    Then(Rep(Digit, 1, UpTo(4), true), SlashThen(Field2Then(k)))
  }

  function Field3End(s: string, i: nat): (e: Option<nat>)
    requires i <= |s|
    ensures e.Some? ==> i < e.value <= |s|
  {
    var c := Digits(s, i, 4);
    if c == 0 then None else Some(i + c)
  }

  function Field2End(s: string, i: nat): (e: Option<nat>)
    requires i <= |s|
    ensures e.Some? ==> i < e.value <= |s|
  {
    var q := i + Digits(s, i, 2);
    if q > i && q < |s| && IsSlash(s[q]) then Field3End(s, q + 1) else None
  }

  /** Where the date group that starts at `p` ends, if it matches there:
      one to four digits, `/` or `-`, one or two digits, `/` or `-`, one to
      four digits. */
  function DateEnd(s: string, p: nat): (e: Option<nat>)
    requires p <= |s|
    ensures e.Some? ==> p < e.value <= |s|
  {
    var q := p + Digits(s, p, 4);
    if q > p && q < |s| && IsSlash(s[q]) then Field2End(s, q + 1) else None
  }

  lemma FailsOnDigitsLater(k: Pat, s: string, i: nat, j: nat, ms: seq<nat>)
    requires i <= j && FailsOnDigits(k, s, i, ms)
    ensures FailsOnDigits(k, s, j, ms)
  {
  }

  /** `y` at `q` is a separator followed by `x`. */
  ghost predicate SlashLike(y: Pat, x: Pat, s: string, q: nat, ms: seq<nat>)
    requires q <= |s|
  {
    Run(y, s, q, ms) == if q < |s| && IsSlash(s[q]) then Run(x, s, q + 1, ms) else None
  }

  lemma SlashStep(x: Pat, s: string, q: nat, ms: seq<nat>)
    requires q <= |s|
    ensures SlashLike(SlashThen(x), x, s, q, ms)
  {
    SlashRun(x, s, q, ms);
  }

  /** `y` at `i` is one to `cap` digits and a separator, followed by `x`. */
  ghost predicate FieldLike(y: Pat, x: Pat, cap: nat, s: string, i: nat, ms: seq<nat>)
    requires i <= |s|
  {
    var q := i + Digits(s, i, cap);
    Run(y, s, i, ms) == if q > i && q < |s| && IsSlash(s[q]) then Run(x, s, q + 1, ms) else None
  }

  /** `y` at `i` is a piece that ends where `o` says, followed by `k`. */
  ghost predicate EndsAt(y: Pat, k: Pat, s: string, i: nat, ms: seq<nat>, o: Option<nat>)
    requires i <= |s| && (o.Some? ==> o.value <= |s|)
  {
    Run(y, s, i, ms) == RunAt(k, s, o, ms)
  }

  /** A field of one to `cap` digits, before something `y` that cannot
      start on a digit and matches after a separator only. */
  lemma DigitsSlash(y: Pat, x: Pat, cap: nat, s: string, i: nat, ms: seq<nat>)
    requires i <= |s| && FailsOnDigits(y, s, i, ms)
    requires SlashLike(y, x, s, i + Digits(s, i, cap), ms)
    ensures FieldLike(Then(Rep(Digit, 1, UpTo(cap), true), y), x, cap, s, i, ms)
  {
    DigitsRun(y, cap, s, i, ms);
  }

  /** A field of one to `cap` digits and a separator, before `x`. */
  lemma FieldStep(x: Pat, cap: nat, s: string, i: nat, ms: seq<nat>)
    requires i <= |s|
    ensures FieldLike(Then(Rep(Digit, 1, UpTo(cap), true), SlashThen(x)), x, cap, s, i, ms)
  {
    SlashFailsOnDigits(x, s, i, ms);
    SlashStep(x, s, i + Digits(s, i, cap), ms);
    DigitsSlash(SlashThen(x), x, cap, s, i, ms);
  }

  /** A field and a separator before a piece that ends at `o` end there too. */
  lemma FieldHit(y: Pat, x: Pat, k: Pat, cap: nat, s: string, i: nat, q: nat, ms: seq<nat>, o: Option<nat>)
    requires i < q < |s| && (o.Some? ==> o.value <= |s|)
    requires y == Then(Rep(Digit, 1, UpTo(cap), true), SlashThen(x))
    requires q == i + Digits(s, i, cap) && IsSlash(s[q]) && EndsAt(x, k, s, q + 1, ms, o)
    ensures EndsAt(y, k, s, i, ms, o)
  {
    FieldStep(x, cap, s, i, ms);
  }

  /** Without digits and a separator the field does not match. */
  lemma FieldMiss(y: Pat, x: Pat, k: Pat, cap: nat, s: string, i: nat, q: nat, ms: seq<nat>)
    requires i <= q <= |s|
    requires y == Then(Rep(Digit, 1, UpTo(cap), true), SlashThen(x))
    requires q == i + Digits(s, i, cap) && !(q > i && q < |s| && IsSlash(s[q]))
    ensures EndsAt(y, k, s, i, ms, None)
  {
    FieldStep(x, cap, s, i, ms);
  }

  lemma Field3Run(k: Pat, s: string, i: nat, ms: seq<nat>)
    requires i <= |s| && FailsOnDigits(k, s, i, ms)
    ensures EndsAt(Field3Then(k), k, s, i, ms, Field3End(s, i))
  {
    DigitsRun(k, 4, s, i, ms);
    Field3Glue(Field3Then(k), k, s, i, ms);
  }

  lemma Field3Glue(y: Pat, k: Pat, s: string, i: nat, ms: seq<nat>)
    requires i <= |s| && DigitsLike(y, k, 4, s, i, ms)
    ensures EndsAt(y, k, s, i, ms, Field3End(s, i))
  {
    var c := Digits(s, i, 4);
    if c == 0 {
      assert Field3End(s, i) == None;
    } else {
      assert Field3End(s, i) == Some(i + c);
    }
  }

  lemma Field2Shape(k: Pat)
    ensures Field2Then(k) == Then(Rep(Digit, 1, UpTo(2), true), SlashThen(Field3Then(k)))
  {
  }

  lemma Field1Shape(k: Pat)
    ensures Field1Then(k) == Then(Rep(Digit, 1, UpTo(4), true), SlashThen(Field2Then(k)))
  {
  }

  /** `Field2End` after the first field and its separator. */
  lemma Field2EndHit(s: string, i: nat, q: nat)
    requires i < q < |s| && q == i + Digits(s, i, 2) && IsSlash(s[q])
    ensures Field2End(s, i) == Field3End(s, q + 1)
  {
  }

  lemma Field2EndMiss(s: string, i: nat, q: nat)
    requires i <= q <= |s| && q == i + Digits(s, i, 2) && !(q > i && q < |s| && IsSlash(s[q]))
    ensures Field2End(s, i) == None
  {
  }

  /** `DateEnd` after the first field and its separator. */
  lemma DateEndHit(s: string, p: nat, q: nat)
    requires p < q < |s| && q == p + Digits(s, p, 4) && IsSlash(s[q])
    ensures DateEnd(s, p) == Field2End(s, q + 1)
  {
  }

  lemma DateEndMiss(s: string, p: nat, q: nat)
    requires p <= q <= |s| && q == p + Digits(s, p, 4) && !(q > p && q < |s| && IsSlash(s[q]))
    ensures DateEnd(s, p) == None
  {
  }

  lemma Field2Run(k: Pat, s: string, i: nat, ms: seq<nat>)
    requires i <= |s| && FailsOnDigits(k, s, i, ms)
    ensures EndsAt(Field2Then(k), k, s, i, ms, Field2End(s, i))
  {
    var q := i + Digits(s, i, 2);
    Field2Shape(k);
    if q > i && q < |s| && IsSlash(s[q]) {
      FailsOnDigitsLater(k, s, i, q + 1, ms);
      Field3Run(k, s, q + 1, ms);
      FieldHit(Field2Then(k), Field3Then(k), k, 2, s, i, q, ms, Field3End(s, q + 1));
      Field2EndHit(s, i, q);
    } else {
      FieldMiss(Field2Then(k), Field3Then(k), k, 2, s, i, q, ms);
      Field2EndMiss(s, i, q);
    }
  }

  lemma Field1Run(k: Pat, s: string, p: nat, ms: seq<nat>)
    requires p <= |s| && FailsOnDigits(k, s, p, ms)
    ensures EndsAt(Field1Then(k), k, s, p, ms, DateEnd(s, p))
  {
    var q := p + Digits(s, p, 4);
    Field1Shape(k);
    if q > p && q < |s| && IsSlash(s[q]) {
      FailsOnDigitsLater(k, s, p, q + 1, ms);
      Field2Run(k, s, q + 1, ms);
      FieldHit(Field1Then(k), Field2Then(k), k, 4, s, p, q, ms, Field2End(s, q + 1));
      DateEndHit(s, p, q);
    } else {
      FieldMiss(Field1Then(k), Field2Then(k), k, 4, s, p, q, ms);
      DateEndMiss(s, p, q);
    }
  }

  /** The date group cannot be followed by a digit: the separator needs a
      comma or whitespace. */
  lemma DateCloseFailsOnDigits(s: string, p: nat, ms: seq<nat>)
    requires p <= |s|
    ensures FailsOnDigits(DateClose, s, p, ms)
  {
    forall q | p < q < |s| && IsDigit(s[q])
      ensures Run(DateClose, s, q, ms) == None
    {
      SepTailRun(s, q, ms + [q]);
    }
  }

  /** The date group and everything after it. */
  lemma DateTailRun(s: string, p: nat, ms: seq<nat>)
    requires p <= |s|
    ensures Run(DateTail, s, p, ms)
         == match DateEnd(s, p)
            case None => None
            case Some(e) => Run(SepTail, s, e, ms + [p, e])
  {
    var ms1 := ms + [p];
    DateCloseFailsOnDigits(s, p, ms1);
    Field1Run(DateClose, s, p, ms1);
    RunMark(Field1Then(DateClose), s, p, ms);
    match DateEnd(s, p)
    case None =>
    case Some(e) =>
      RunMark(SepTail, s, e, ms1);
      assert ms1 + [e] == ms + [p, e];
  }

  // ---------------------------------------------------------------------
  // The whole line.

  /** Where the date starts: after an optional `[`. */
  function DateStart(s: string): nat {
    if |s| > 0 && s[0] == '[' then 1 else 0
  }

  /** The marks recorded after a date that ends at `e`: the separator, the
      time group, and the author and text. */
  function AfterDate(s: string, e: nat, ms: seq<nat>): Option<seq<nat>>
    requires e <= |s|
  {
    var t0 := SepEnd(s, e);
    if t0 == e then None
    else
      match TimeEnd(s, t0)
      case None => None
      case Some(t) => MarksFrom(s, AuthorStart(s, t), ms + [t0, t])
  }

  /** The groups cut out of `s` at the marks `ms`. */
  function GroupsOf(s: string, ms: seq<nat>): Groups
    requires |ms| == 8 && Ordered(ms, |s|)
  {
    Groups(s[ms[0]..ms[1]], s[ms[2]..ms[3]], s[ms[4]..ms[5]], s[ms[6]..ms[7]])
  }

  /** The author and the text when the time group ends at `t`. */
  function ScanAuthor(s: string, t: nat, date: string, time: string): Option<Groups>
    requires t <= |s|
  {
    match AuthorStart(s, t)
    case None => None
    case Some(a) =>
      var j := FirstColonSpace(s, a).value;
      Some(Groups(date, time, s[a..j], s[j + 2..]))
  }

  /** The separator, the time and the rest when the date group ends at `e`. */
  function ScanFrom(s: string, e: nat, date: string): Option<Groups>
    requires e <= |s|
  {
    var t0 := SepEnd(s, e);
    if t0 == e then None
    else
      match TimeEnd(s, t0)
      case None => None
      case Some(t) => ScanAuthor(s, t, date, s[t0..t])
  }

  /** The reference reading of a chat line: each group read left to right
      where the one before it ended, without backtracking. */
  function ScanLine(s: string): Option<Groups> {
    var p := DateStart(s);
    match DateEnd(s, p)
    case None => None
    case Some(e) => ScanFrom(s, e, s[p..e])
  }

  /** Every mark of the pattern sits outside its optional parts, so a match
      always records eight positions. */
  lemma PatternMarks()
    ensures FlatMarks(Pattern) && MarkCount(Pattern) == 8
  {
    assert FlatMarks(TextTail) && MarkCount(TextTail) == 2;
    assert FlatMarks(AuthorTail) && MarkCount(AuthorTail) == 4;
    assert FlatMarks(DecorTail) && MarkCount(DecorTail) == 4;
    assert NoMarks(Meridiem) && NoMarks(Seconds);
    assert FlatMarks(SecondsTail) && MarkCount(SecondsTail) == 5;
    assert FlatMarks(TimeTail) && MarkCount(TimeTail) == 6;
    assert FlatMarks(DateClose) && MarkCount(DateClose) == 7;
  }

  /** `patron.match(s)`: the groups of the engine's first match. */
  function MatchLine(s: string): (g: Option<Groups>)
    ensures g.Some? <==> Run(Pattern, s, 0, []).Some?
  {
    PatternMarks();
    RunShape(Pattern, s, 0, []);
    match Run(Pattern, s, 0, [])
    case None => None
    case Some(ms) => Some(GroupsOf(s, ms))
  }

  /** The optional `[` is taken only if a date follows it; a line that
      starts with `[` cannot have its date at position 0. */
  lemma PatternRun(s: string)
    ensures Run(Pattern, s, 0, []) == Run(DateTail, s, DateStart(s), [])
  {
    RunMaybe(OneOf("["), DateTail, s, 0, []);
    DateTailRun(s, 0, []);
    if |s| > 0 && s[0] == '[' {
      assert Digits(s, 0, 4) == 0;
    }
  }

  lemma AfterDateRun(s: string, e: nat, ms: seq<nat>)
    requires NoNewline(s) && e <= |s|
    ensures Run(SepTail, s, e, ms) == AfterDate(s, e, ms)
  {
    SepTailRun(s, e, ms);
    var t0 := SepEnd(s, e);
    if t0 > e {
      TimeTailRun(s, t0, ms);
    }
  }

  /** The marks after the time name the same author and text as the scanner. */
  lemma AuthorGroupsAt(s: string, t: nat, ms: seq<nat>, date: string, time: string)
    requires t <= |s| && |ms| == 4 && Ordered(ms, t)
    requires date == s[ms[0]..ms[1]] && time == s[ms[2]..ms[3]]
    ensures MarksFrom(s, AuthorStart(s, t), ms).Some? <==> ScanAuthor(s, t, date, time).Some?
    ensures MarksFrom(s, AuthorStart(s, t), ms).Some? ==>
              var v := MarksFrom(s, AuthorStart(s, t), ms).value;
              |v| == 8 && Ordered(v, |s|) && GroupsOf(s, v) == ScanAuthor(s, t, date, time).value
  {
    match AuthorStart(s, t)
    case None =>
    case Some(a) =>
      var j := FirstColonSpace(s, a).value;
      var v := ms + [a, j, j + 2, |s|];
      assert MarksFrom(s, AuthorStart(s, t), ms) == Some(v);
      OrderedAuthor(ms, t, a, j, |s|);
      assert GroupsOf(s, v) == Groups(date, time, s[a..j], s[j + 2..]);
  }

  lemma OrderedAuthor(ms: seq<nat>, t: nat, a: nat, j: nat, n: nat)
    requires |ms| == 4 && Ordered(ms, t) && t <= a <= j && j + 2 <= n
    ensures var v := ms + [a, j, j + 2, n];
            |v| == 8 && Ordered(v, n) && v[..4] == ms
            && v[4] == a && v[5] == j && v[6] == j + 2 && v[7] == n
  {
    OrderedWiden(ms, t, a);
    OrderedSnoc(ms, a);
    OrderedWiden(ms + [a], a, j);
    OrderedSnoc(ms + [a], j);
    OrderedWiden(ms + [a] + [j], j, j + 2);
    OrderedSnoc(ms + [a] + [j], j + 2);
    OrderedWiden(ms + [a] + [j] + [j + 2], j + 2, n);
    OrderedSnoc(ms + [a] + [j] + [j + 2], n);
    assert ms + [a] + [j] + [j + 2] + [n] == ms + [a, j, j + 2, n];
  }

  /** The marks after the date name the same groups as the scanner. */
  lemma AfterDateGroups(s: string, p: nat, e: nat)
    requires p <= e <= |s|
    ensures AfterDate(s, e, [p, e]).Some? <==> ScanFrom(s, e, s[p..e]).Some?
    ensures AfterDate(s, e, [p, e]).Some? ==>
              var v := AfterDate(s, e, [p, e]).value;
              |v| == 8 && Ordered(v, |s|) && GroupsOf(s, v) == ScanFrom(s, e, s[p..e]).value
  {
    var t0 := SepEnd(s, e);
    if t0 != e && TimeEnd(s, t0).Some? {
      var t := TimeEnd(s, t0).value;
      var ms := [p, e, t0, t];
      assert [p, e] + [t0, t] == ms;
      AuthorGroupsAt(s, t, ms, s[p..e], s[t0..t]);
    }
  }

  /** What the scanner records, as marks. */
  function ScanMarks(s: string): Option<seq<nat>> {
    var p := DateStart(s);
    match DateEnd(s, p)
    case None => None
    case Some(e) => AfterDate(s, e, [p, e])
  }

  /** The engine records the scanner's marks on every line without a line
      break. */
  lemma LineMarksRun(s: string)
    requires NoNewline(s)
    ensures Run(Pattern, s, 0, []) == ScanMarks(s)
  {
    PatternRun(s);
    DateTailMarks(s, DateStart(s));
  }

  lemma DateTailMarks(s: string, p: nat)
    requires NoNewline(s) && p <= |s|
    ensures Run(DateTail, s, p, [])
         == match DateEnd(s, p)
            case None => None
            case Some(e) => AfterDate(s, e, [p, e])
  {
    DateTailRun(s, p, []);
    match DateEnd(s, p)
    case None =>
    case Some(e) =>
      assert [] + [p, e] == [p, e];
      AfterDateRun(s, e, [p, e]);
  }

  /** `patron.match` reads every line without a line break exactly as the
      scanner does. */
  lemma MatchLineScan(s: string)
    requires NoNewline(s)
    ensures MatchLine(s) == ScanLine(s)
  {
    PatternMarks();
    RunShape(Pattern, s, 0, []);
    LineMarksRun(s);
    var p := DateStart(s);
    match DateEnd(s, p)
    case None =>
    case Some(e) => AfterDateGroups(s, p, e);
  }

  /** `author` starts at `a` and runs up to the first colon followed by
      whitespace, and `text` is all that follows that colon and one
      whitespace character. */
  predicate AuthorThenText(s: string, a: nat, author: string, text: string) {
    var j := a + |author|;
    j + 2 <= |s| && s[a..j] == author && ColonSpaceAt(s, j) && s[j + 2..] == text
    && forall k :: a <= k < j ==> !ColonSpaceAt(s, k)
  }

  /** Where the time group ends, when the date, the separator and the time
      all match. */
  function TimeGroupEnd(s: string): (t: Option<nat>)
    ensures t.Some? ==> t.value <= |s|
  {
    match DateEnd(s, DateStart(s))
    case None => None
    case Some(e) =>
      var t0 := SepEnd(s, e);
      if t0 == e then None else TimeEnd(s, t0)
  }

  /** What `\]?:?[\s-]*` matches: an optional `]`, an optional colon, then
      whitespace and dashes. */
  predicate Decoration(x: string) {
    var i := if 0 < |x| && x[0] == ']' then 1 else 0;
    var j := if i < |x| && x[i] == ':' then i + 1 else i;
    forall k :: j <= k < |x| ==> SpaceOrDash(x[k])
  }

  /** The author starts right after a decoration, on a character that is
      neither whitespace nor a dash. */
  lemma AuthorStartShape(s: string, t: nat)
    requires t <= |s| && AuthorStart(s, t).Some?
    ensures var a := AuthorStart(s, t).value;
            a < |s| && Decoration(s[t..a]) && !SpaceOrDash(s[a])
  {
    var b := if t < |s| && s[t] == ']' then t + 1 else t;
    var c := if b < |s| && s[b] == ':' then b + 1 else b;
    var q := SkipSpaceDash(s, c);
    var a := AuthorStart(s, t).value;
    var x := s[t..a];
    if FirstColonSpace(s, q).Some? {
      assert a == q;
      assert forall k :: c - t <= k < |x| ==> x[k] == s[t + k];
    } else {
      assert a == b && ColonSpaceAt(s, b);
    }
  }

  /** The scanner's author starts where the decoration after the time group
      ends, never holds a colon followed by whitespace, and its text group
      is the rest of the line after the first one. */
  lemma ScanLineAuthor(s: string)
    requires ScanLine(s).Some?
    ensures TimeGroupEnd(s).Some?
    ensures var g := ScanLine(s).value;
            var t := TimeGroupEnd(s).value;
            |g.time| <= t && s[t - |g.time|..t] == g.time
            && AuthorStart(s, t).Some?
            && var a := AuthorStart(s, t).value;
               Decoration(s[t..a]) && AuthorThenText(s, a, g.author, g.text)
  {
    var p := DateStart(s);
    var e := DateEnd(s, p).value;
    var t0 := SepEnd(s, e);
    var t := TimeEnd(s, t0).value;
    assert TimeGroupEnd(s) == Some(t);
    assert ScanLine(s) == ScanAuthor(s, t, s[p..e], s[t0..t]);
    ScanAuthorText(s, t, s[p..e], s[t0..t]);
    AuthorStartShape(s, t);
  }

  lemma ScanAuthorText(s: string, t: nat, date: string, time: string)
    requires t <= |s| && ScanAuthor(s, t, date, time).Some?
    ensures AuthorStart(s, t).Some?
    ensures AuthorThenText(s, AuthorStart(s, t).value, ScanAuthor(s, t, date, time).value.author,
                           ScanAuthor(s, t, date, time).value.text)
  {
    var a := AuthorStart(s, t).value;
    var j := FirstColonSpace(s, a).value;
    assert AuthorThenText(s, a, s[a..j], s[j + 2..]);
  }
}
