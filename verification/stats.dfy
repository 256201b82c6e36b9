/** The statistics of src/whatsapp_utiles.py over a list of messages. */
module Stats {
  import opened Optional
  import opened Chars
  import opened Calendar
  import opened Messages
  import opened Counters
  import opened Positions

  // ---------------------------------------------------------------------
  // Keys by which messages are grouped.

  function AuthorOf(m: Message): string { m.author }
  function HourOf(m: Message): int { m.time.hour }
  function DayOf(m: Message): DateValue { m.date }

  /** `DIAS_SEMANA[m.fecha.weekday()]` */
  function WeekdayOf(m: Message): string { WeekdayNames[Weekday(m.date)] }

  /** The key of every message, in order. */
  function Project<K>(ms: seq<Message>, key: Message -> K): (ks: seq<K>)
    ensures |ks| == |ms| && forall i :: 0 <= i < |ms| ==> ks[i] == key(ms[i])
  {
    seq(|ms|, i requires 0 <= i < |ms| => key(ms[i]))
  }

  /** The messages whose key is `k`, in order. */
  function Matching<K(==)>(ms: seq<Message>, key: Message -> K, k: K): seq<Message> {
    if |ms| == 0 then []
    else Matching(ms[..|ms| - 1], key, k) + (if key(ms[|ms| - 1]) == k then [ms[|ms| - 1]] else [])
  }

  /** Counting the keys counts the messages that carry them. */
  lemma {:induction false} ProjectCount<K>(ms: seq<Message>, key: Message -> K, k: K)
    ensures multiset(Project(ms, key))[k] == |Matching(ms, key, k)|
  {
    if |ms| > 0 {
      var init := ms[..|ms| - 1];
      ProjectCount(init, key, k);
      assert Project(ms, key) == Project(init, key) + [key(ms[|ms| - 1])];
    }
  }

  /** A `Counter` over the keys of the messages. */
  function CountBy<K(==)>(ms: seq<Message>, key: Message -> K): (c: Counter<K>)
    ensures DistinctKeys(c)
  {
    Tally(Project(ms, key))
  }

  /** Each key is listed once, in the order of the first message carrying
      it; its count is the number of messages carrying it, any other key
      reads as 0, and the counts add up to the number of messages. */
  lemma CountBySpec<K>(ms: seq<Message>, key: Message -> K)
    ensures FirstSeenOrder(Keys(CountBy(ms, key)), Project(ms, key))
    ensures forall k :: Get(CountBy(ms, key), k) == |Matching(ms, key, k)|
    ensures Total(CountBy(ms, key)) == |ms|
  {
    TallyKeys(Project(ms, key));
    TallyTotal(Project(ms, key));
    forall k
      ensures Get(CountBy(ms, key), k) == |Matching(ms, key, k)|
    {
      TallyGet(Project(ms, key), k);
      ProjectCount(ms, key, k);
    }
  }

  // ---------------------------------------------------------------------
  // `calcula_rango_fechas`

  /** The dates of the first and the last message; `None` for no
      messages. */
  function DateRange(ms: seq<Message>): (r: Option<(DateValue, DateValue)>)
    ensures r.None? <==> |ms| == 0
  {
    if |ms| == 0 then None else Some((ms[0].date, ms[|ms| - 1].date))
  }

  /** The messages are in chronological order. */
  predicate Chronological(ms: seq<Message>) {
    forall i, j :: 0 <= i < j < |ms| ==> NotAfter(ms[i].date, ms[j].date)
  }

  /** On chronologically sorted messages the range is the earliest and the
      latest date. */
  lemma DateRangeSorted(ms: seq<Message>)
    requires Chronological(ms) && |ms| > 0
    ensures forall m :: m in ms ==> NotAfter(DateRange(ms).value.0, m.date) && NotAfter(m.date, DateRange(ms).value.1)
  {
    forall m | m in ms
      ensures NotAfter(ms[0].date, m.date) && NotAfter(m.date, ms[|ms| - 1].date)
    {
      var i :| 0 <= i < |ms| && ms[i] == m;
      if 0 < i {
        assert NotAfter(ms[0].date, ms[i].date);
      }
      if i < |ms| - 1 {
        assert NotAfter(ms[i].date, ms[|ms| - 1].date);
      }
    }
  }

  /** Out of order, the first date can be later than the last one: the
      range is only a range for sorted input. */
  lemma DateRangeUnsorted()
    ensures var ms := [Message(Date(2024, 1, 2), Time(10, 0, 0), "a", "x"),
                       Message(Date(2024, 1, 1), Time(11, 0, 0), "b", "y")];
            Before(DateRange(ms).value.1, DateRange(ms).value.0)
  {
  }

  function Reverse<T>(s: seq<T>): (r: seq<T>)
    ensures |r| == |s| && forall i :: 0 <= i < |s| ==> r[i] == s[|s| - 1 - i]
  {
    seq(|s|, i requires 0 <= i < |s| => s[|s| - 1 - i])
  }

  /** `calcula_rango_fechas` reverses the caller's list: asking again for
      the range of the same list gives the two dates swapped. */
  lemma DateRangeAgain(ms: seq<Message>)
    requires |ms| > 0
    ensures DateRange(Reverse(ms)) == Some((DateRange(ms).value.1, DateRange(ms).value.0))
  {
  }

  /** The function as written: the first date is read, the list is
      reversed in place, and the first date is read again. */
  method DateRangeInPlace(a: array<Message>) returns (r: Option<(DateValue, DateValue)>)
    modifies a
    ensures a[..] == Reverse(old(a[..]))
    ensures r == DateRange(old(a[..]))
  {
    if a.Length == 0 {
      return None;
    }
    var first := a[0].date;
    ReverseInPlace(a);
    r := Some((first, a[0].date));
  }

  /** `list.reverse()` */
  method ReverseInPlace<T>(a: array<T>)
    modifies a
    ensures a[..] == Reverse(old(a[..]))
  {
    var i, j := 0, a.Length - 1;
    while i < j
      invariant 0 <= i <= a.Length && j == a.Length - 1 - i
      invariant forall k :: 0 <= k < i ==> a[k] == old(a[a.Length - 1 - k]) && a[a.Length - 1 - k] == old(a[k])
      invariant forall k :: i <= k <= j ==> a[k] == old(a[k])
    {
      a[i], a[j] := a[j], a[i];
      i, j := i + 1, j - 1;
    }
  }

  // ---------------------------------------------------------------------
  // `filtra_mensajes_por_fechas`

  /** The date lies between the bounds, inclusive; a missing bound does
      not restrict. */
  predicate Within(d: Date, start: Option<Date>, end: Option<Date>) {
    (start.None? || NotAfter(start.value, d)) && (end.None? || NotAfter(d, end.value))
  }

  /** The messages dated within the bounds, in their original order. */
  function Filtered(ms: seq<Message>, start: Option<Date>, end: Option<Date>): seq<Message> {
    if |ms| == 0 then []
    else
      var last := ms[|ms| - 1];
      Filtered(ms[..|ms| - 1], start, end) + (if Within(last.date, start, end) then [last] else [])
  }

  /** The four branches of the loop in `filtra_mensajes_por_fechas`. */
  method FilterByDates(ms: seq<Message>, start: Option<Date>, end: Option<Date>) returns (res: seq<Message>)
    ensures res == Filtered(ms, start, end)
  {
    res := [];
    for i := 0 to |ms|
      invariant res == Filtered(ms[..i], start, end)
    {
      var m := ms[i];
      if start.Some? && end.Some? {
        if NotAfter(start.value, m.date) && NotAfter(m.date, end.value) {
          res := res + [m];
        }
      } else if end.None? && start.Some? {
        if NotAfter(start.value, m.date) {
          res := res + [m];
        }
      } else if start.None? && end.Some? {
        if NotAfter(m.date, end.value) {
          res := res + [m];
        }
      } else {
        res := res + [m];
      }
      assert ms[..i + 1][..i] == ms[..i];
    }
    assert ms[..|ms|] == ms;
  }

  /** Which messages are dated within the bounds. */
  function InRange(ms: seq<Message>, start: Option<Date>, end: Option<Date>): (ok: seq<bool>)
    ensures |ok| == |ms|
    ensures forall i :: 0 <= i < |ms| ==> (ok[i] <==> Within(ms[i].date, start, end))
  {
    seq(|ms|, i requires 0 <= i < |ms| => Within(ms[i].date, start, end))
  }

  /** The positions of the messages dated within the bounds, in list order. */
  function Kept(ms: seq<Message>, start: Option<Date>, end: Option<Date>): (idx: seq<nat>)
    ensures forall k :: 0 <= k < |idx| ==> idx[k] < |ms| && Within(ms[idx[k]].date, start, end)
    ensures forall k, l :: 0 <= k < l < |idx| ==> idx[k] < idx[l]
    ensures forall i :: 0 <= i < |ms| && Within(ms[i].date, start, end) ==> i in idx
  {
    Trues(InRange(ms, start, end))
  }

  /** A message is kept exactly when it is dated within the bounds; the
      kept messages keep their order and multiplicity: the result lists the
      messages at the kept positions, in increasing order of position. */
  lemma {:induction false} FilteredSpec(ms: seq<Message>, start: Option<Date>, end: Option<Date>)
    ensures forall m :: m in Filtered(ms, start, end) <==> m in ms && Within(m.date, start, end)
    ensures forall m :: multiset(Filtered(ms, start, end))[m] == if Within(m.date, start, end) then multiset(ms)[m] else 0
    ensures |Filtered(ms, start, end)| == |Kept(ms, start, end)|
    ensures forall k :: 0 <= k < |Kept(ms, start, end)| ==> Filtered(ms, start, end)[k] == ms[Kept(ms, start, end)[k]]
  {
    FilteredAt(ms, start, end);
    FilteredCounts(ms, start, end);
  }

  lemma {:induction false} FilteredCounts(ms: seq<Message>, start: Option<Date>, end: Option<Date>)
    ensures forall m :: m in Filtered(ms, start, end) <==> m in ms && Within(m.date, start, end)
    ensures forall m :: multiset(Filtered(ms, start, end))[m] == if Within(m.date, start, end) then multiset(ms)[m] else 0
  {
    if |ms| > 0 {
      var init := ms[..|ms| - 1];
      var last := ms[|ms| - 1];
      FilteredCounts(init, start, end);
      assert ms == init + [last];
      assert multiset(ms) == multiset(init) + multiset{last};
    }
  }

  /** The `k`-th message kept is the message at the `k`-th kept position. */
  lemma {:induction false} FilteredAt(ms: seq<Message>, start: Option<Date>, end: Option<Date>)
    ensures |Filtered(ms, start, end)| == |Kept(ms, start, end)|
    ensures forall k :: 0 <= k < |Kept(ms, start, end)| ==> Filtered(ms, start, end)[k] == ms[Kept(ms, start, end)[k]]
  {
    if |ms| > 0 {
      var n := |ms|;
      var init := ms[..n - 1];
      FilteredAt(init, start, end);
      var ok := InRange(ms, start, end);
      assert InRange(init, start, end) == ok[..n - 1];
      var idx0 := Kept(init, start, end);
      var out0 := Filtered(init, start, end);
      var idx := Kept(ms, start, end);
      var out := Filtered(ms, start, end);
      assert idx == idx0 + (if ok[n - 1] then [n - 1] else []);
      forall k | 0 <= k < |idx|
        ensures out[k] == ms[idx[k]]
      {
        if k < |idx0| {
          assert idx[k] == idx0[k] && out[k] == out0[k];
          assert init[idx0[k]] == ms[idx0[k]];
        }
      }
    }
  }

  /** With no bounds every message is kept. */
  lemma {:induction false} FilteredUnbounded(ms: seq<Message>)
    ensures Filtered(ms, None, None) == ms
  {
    if |ms| > 0 {
      FilteredUnbounded(ms[..|ms| - 1]);
      assert ms == ms[..|ms| - 1] + [ms[|ms| - 1]];
    }
  }

  /** Filtering a sorted list keeps it sorted. */
  lemma {:induction false} FilteredChronological(ms: seq<Message>, start: Option<Date>, end: Option<Date>)
    requires Chronological(ms)
    ensures Chronological(Filtered(ms, start, end))
  {
    if |ms| > 0 {
      var init := ms[..|ms| - 1];
      var last := ms[|ms| - 1];
      assert Chronological(init) by {
        forall i, j | 0 <= i < j < |init| ensures NotAfter(init[i].date, init[j].date) {
          assert init[i] == ms[i] && init[j] == ms[j];
        }
      }
      FilteredChronological(init, start, end);
      FilteredSpec(init, start, end);
      var f := Filtered(init, start, end);
      if Within(last.date, start, end) {
        forall i, j | 0 <= i < j < |f| + 1
          ensures NotAfter((f + [last])[i].date, (f + [last])[j].date)
        {
          if j == |f| {
            assert (f + [last])[i] == f[i] && f[i] in init;
            var k :| 0 <= k < |init| && init[k] == f[i];
            assert NotAfter(ms[k].date, ms[|ms| - 1].date);
          } else {
            assert (f + [last])[i] == f[i] && (f + [last])[j] == f[j];
          }
        }
      }
    }
  }

  // ---------------------------------------------------------------------
  // `cuenta_mensajes_por_usuario`, `cuenta_mensajes_por_hora`,
  // `cuenta_mensajes_por_dia_semana`

  function CountByAuthor(ms: seq<Message>): Counter<string> { CountBy(ms, AuthorOf) }
  function CountByHour(ms: seq<Message>): Counter<int> { CountBy(ms, HourOf) }
  function CountByWeekday(ms: seq<Message>): Counter<string> { CountBy(ms, WeekdayOf) }

  /** Every hour key is an hour of the day, 0 to 23. */
  lemma CountByHourRange(ms: seq<Message>)
    ensures forall k :: k in Keys(CountByHour(ms)) ==> 0 <= k <= 23
  {
    CountBySpec(ms, HourOf);
  }

  /** Every weekday key is one of the seven Spanish day names. */
  lemma CountByWeekdayNames(ms: seq<Message>)
    ensures forall k :: k in Keys(CountByWeekday(ms)) ==> k in WeekdayNames
  {
    CountBySpec(ms, WeekdayOf);
  }

  /** 1 January 2024 was a Monday: its key is "Lunes". */
  lemma NewYear2024IsLunes()
    ensures Weekday(Date(2024, 1, 1)) == 0
    ensures WeekdayOf(Message(Date(2024, 1, 1), Time(10, 0, 0), "a", "x")) == "Lunes"
  {
    WeekdayOfOrdinal(Date(2024, 1, 1), 0);
  }

  // ---------------------------------------------------------------------
  // `calcula_longitud_media_por_usuario`

  /** Total number of characters in the texts. */
  function TextLength(ms: seq<Message>): nat {
    if |ms| == 0 then 0 else TextLength(ms[..|ms| - 1]) + |ms[|ms| - 1].text|
  }

  /** The `defaultdict(int)` that sums each author's text lengths. */
  function LengthTotals(ms: seq<Message>): Counter<string> {
    if |ms| == 0 then []
    else Add(LengthTotals(ms[..|ms| - 1]), ms[|ms| - 1].author, |ms[|ms| - 1].text|)
  }

  /** The summed lengths have the same keys, in the same order, as the
      message counts per author. */
  lemma {:induction false} LengthTotalsKeys(ms: seq<Message>)
    ensures Keys(LengthTotals(ms)) == Keys(CountByAuthor(ms))
  {
    if |ms| > 0 {
      var init := ms[..|ms| - 1];
      var last := ms[|ms| - 1];
      LengthTotalsKeys(init);
      var xs := Project(ms, AuthorOf);
      assert xs[..|xs| - 1] == Project(init, AuthorOf);
      assert CountByAuthor(ms) == Add(CountByAuthor(init), last.author, 1);
      AddKeys(LengthTotals(init), last.author, |last.text|);
      AddKeys(CountByAuthor(init), last.author, 1);
    }
  }

  /** Each author's entry is the total length of that author's texts. */
  lemma {:induction false} LengthTotalsGet(ms: seq<Message>, a: string)
    ensures Get(LengthTotals(ms), a) == TextLength(Matching(ms, AuthorOf, a))
  {
    if |ms| > 0 {
      var init := ms[..|ms| - 1];
      var last := ms[|ms| - 1];
      LengthTotalsGet(init, a);
      AddGet(LengthTotals(init), last.author, |last.text|, a);
      var mi := Matching(init, AuthorOf, a);
      if last.author == a {
        assert Matching(ms, AuthorOf, a) == mi + [last];
        assert (mi + [last])[..|mi|] == mi;
      } else {
        assert Matching(ms, AuthorOf, a) == mi + [] == mi;
      }
    }
  }

  /** Every author with summed lengths has at least one message. */
  lemma AuthorsCounted(ms: seq<Message>)
    ensures DistinctKeys(LengthTotals(ms))
    ensures forall k :: k in Keys(LengthTotals(ms)) ==> Get(CountByAuthor(ms), k) > 0
  {
    var xs := Project(ms, AuthorOf);
    LengthTotalsKeys(ms);
    TallyKeys(xs);
    forall k | k in Keys(LengthTotals(ms))
      ensures Get(CountByAuthor(ms), k) > 0
    {
      TallyGet(xs, k);
    }
    var c := CountByAuthor(ms);
    var t := LengthTotals(ms);
    forall i, j | 0 <= i < j < |t| ensures t[i].0 != t[j].0 {
      assert t[i].0 == Keys(t)[i] == c[i].0 && t[j].0 == Keys(t)[j] == c[j].0;
    }
  }

  /** Each summed length divided by the author's message count. */
  function Divide(totals: Counter<string>, counts: Counter<string>): (r: seq<(string, real)>)
    requires forall k :: k in Keys(totals) ==> Get(counts, k) > 0
    ensures |r| == |totals|
    ensures forall i :: 0 <= i < |r| ==> r[i].0 == totals[i].0
  {
    seq(|totals|, i requires 0 <= i < |totals| =>
      assert totals[i].0 == Keys(totals)[i];
      (totals[i].0, totals[i].1 as real / Get(counts, totals[i].0) as real))
  }

  /** Each author, in order of first message, with the mean length of
      their texts. */
  function MeanLengthByAuthor(ms: seq<Message>): seq<(string, real)> {
    AuthorsCounted(ms);
    Divide(LengthTotals(ms), CountByAuthor(ms))
  }

  /** One entry of the means: the author has messages, and the mean is the
      total length of the author's texts over the number of them. */
  lemma MeanLengthAt(ms: seq<Message>, i: nat)
    requires i < |MeanLengthByAuthor(ms)|
    ensures var a := MeanLengthByAuthor(ms)[i].0;
            |Matching(ms, AuthorOf, a)| > 0
            && MeanLengthByAuthor(ms)[i].1 == TextLength(Matching(ms, AuthorOf, a)) as real / |Matching(ms, AuthorOf, a)| as real
  {
    var t := LengthTotals(ms);
    AuthorsCounted(ms);
    var a := t[i].0;
    assert a == Keys(t)[i];
    GetAt(t, i);
    LengthTotalsGet(ms, a);
    CountOf(ms, a);
  }

  lemma CountOf(ms: seq<Message>, a: string)
    ensures Get(CountByAuthor(ms), a) == |Matching(ms, AuthorOf, a)|
  {
    TallyGet(Project(ms, AuthorOf), a);
    ProjectCount(ms, AuthorOf, a);
  }

  /** The authors are those of `cuenta_mensajes_por_usuario`, in the same
      order. */
  lemma MeanLengthKeys(ms: seq<Message>)
    ensures |MeanLengthByAuthor(ms)| == |CountByAuthor(ms)|
    ensures forall i :: 0 <= i < |MeanLengthByAuthor(ms)| ==> MeanLengthByAuthor(ms)[i].0 == CountByAuthor(ms)[i].0
  {
    var r := MeanLengthByAuthor(ms);
    var t := LengthTotals(ms);
    var c := CountByAuthor(ms);
    LengthTotalsKeys(ms);
    assert |r| == |t| == |Keys(t)| == |Keys(c)| == |c|;
    forall i | 0 <= i < |r|
      ensures r[i].0 == c[i].0
    {
      assert r[i].0 == Keys(t)[i] == Keys(c)[i];
    }
  }

  // ---------------------------------------------------------------------
  // `detecta_dia_mas_activo`

  /** The date with the most messages and how many it has; `None` for no
      messages. */
  function BusiestDay(ms: seq<Message>): (r: Option<(DateValue, int)>)
    ensures r.None? <==> |ms| == 0
  {
    if |ms| == 0 then None
    else
      TallyTop(Project(ms, DayOf));
      Some(MostCommon(CountBy(ms, DayOf), 1)[0])
  }

  /** The reported count is the number of messages on that date. */
  lemma BusiestDayCount(ms: seq<Message>)
    requires |ms| > 0
    ensures BusiestDay(ms).value.0 in Project(ms, DayOf)
    ensures BusiestDay(ms).value.1 == |Matching(ms, DayOf, BusiestDay(ms).value.0)| > 0
  {
    var xs := Project(ms, DayOf);
    TallyTop(xs);
    ProjectCount(ms, DayOf, BusiestDay(ms).value.0);
  }

  /** No date has more messages than the reported one, and any other date
      with as many first appears later in the list. */
  lemma BusiestDayBeats(ms: seq<Message>, e: DateValue)
    requires |ms| > 0
    ensures BusiestDay(ms).value.0 in Project(ms, DayOf)
    ensures var (d, n) := BusiestDay(ms).value;
            |Matching(ms, DayOf, e)| <= n
            && (e != d && |Matching(ms, DayOf, e)| == n ==>
                  e in Project(ms, DayOf) && FirstIndex(Project(ms, DayOf), d) < FirstIndex(Project(ms, DayOf), e))
  {
    var xs := Project(ms, DayOf);
    TallyTop(xs);
    TallyTopBeats(xs, e);
    ProjectCount(ms, DayOf, e);
  }

  // ---------------------------------------------------------------------
  // `analiza_palabras_caracteristicas`

  /** The words of a message: its text lower-cased and split on
      whitespace. */
  function WordsOf(m: Message): seq<string> {
    Words(Lower(m.text))
  }

  /** The words of the messages, one message after another. */
  function AllWords(ms: seq<Message>): seq<string> {
    if |ms| == 0 then [] else AllWords(ms[..|ms| - 1]) + WordsOf(ms[|ms| - 1])
  }

  /** The messages not written by `user`, in order. */
  function Others(ms: seq<Message>, user: string): seq<Message> {
    if |ms| == 0 then []
    else Others(ms[..|ms| - 1], user) + (if ms[|ms| - 1].author != user then [ms[|ms| - 1]] else [])
  }

  /** `update` for the user's own messages, `subtract` for the others'. */
  function Sign(m: Message, user: string): int {
    if m.author == user then 1 else -1
  }

  /** The `frecuencia_distintiva` counter after the loop. */
  function Scores(ms: seq<Message>, user: string): Counter<string> {
    if |ms| == 0 then []
    else
      var last := ms[|ms| - 1];
      AddAll(Scores(ms[..|ms| - 1], user), WordsOf(last), Sign(last, user))
  }

  /** How often `user` wrote `w`, minus how often everybody else did. */
  function Score(ms: seq<Message>, user: string, w: string): int {
    var mine: int := multiset(AllWords(Matching(ms, AuthorOf, user)))[w];
    mine - multiset(AllWords(Others(ms, user)))[w]
  }

  /** The `n` highest-scoring words with their scores. */
  function DistinctiveWords(ms: seq<Message>, user: string, n: int): Counter<string> {
    MostCommon(Scores(ms, user), n)
  }

  lemma AllWordsSnoc(ms: seq<Message>, m: Message)
    ensures AllWords(ms + [m]) == AllWords(ms) + WordsOf(m)
  {
    assert (ms + [m])[..|ms|] == ms;
  }

  /** The counter holds each word's score. */
  lemma {:induction false} ScoresGet(ms: seq<Message>, user: string, w: string)
    ensures Get(Scores(ms, user), w) == Score(ms, user, w)
  {
    if |ms| > 0 {
      var init := ms[..|ms| - 1];
      var last := ms[|ms| - 1];
      ScoresGet(init, user, w);
      AddAllGet(Scores(init, user), WordsOf(last), Sign(last, user), w);
      var mine := Matching(init, AuthorOf, user);
      var theirs := Others(init, user);
      var k := multiset(WordsOf(last))[w];
      if last.author == user {
        assert Matching(ms, AuthorOf, user) == mine + [last];
        assert Others(ms, user) == theirs + [] == theirs;
        AllWordsSnoc(mine, last);
        assert multiset(AllWords(mine + [last]))[w] == multiset(AllWords(mine))[w] + k;
      } else {
        assert Matching(ms, AuthorOf, user) == mine + [] == mine;
        assert Others(ms, user) == theirs + [last];
        AllWordsSnoc(theirs, last);
        assert multiset(AllWords(theirs + [last]))[w] == multiset(AllWords(theirs))[w] + k;
      }
    }
  }

  /** The counter lists every word of every message once, in order of
      first appearance. */
  lemma {:induction false} ScoresKeys(ms: seq<Message>, user: string)
    ensures DistinctKeys(Scores(ms, user))
    ensures FirstSeenOrder(Keys(Scores(ms, user)), AllWords(ms))
  {
    if |ms| > 0 {
      var init := ms[..|ms| - 1];
      var last := ms[|ms| - 1];
      ScoresKeys(init, user);
      AddAllDistinct(Scores(init, user), WordsOf(last), Sign(last, user));
      AddAllKeys(Scores(init, user), AllWords(init), WordsOf(last), Sign(last, user));
    } else {
      assert Keys(Scores(ms, user)) == [];
    }
  }

  /** An entry of the counter is a word of the messages with its score. */
  lemma EntryScore(ms: seq<Message>, user: string, e: (string, int))
    requires e in multiset(Scores(ms, user))
    ensures e.0 in AllWords(ms) && e.1 == Score(ms, user, e.0)
  {
    var c := Scores(ms, user);
    ScoresKeys(ms, user);
    var q :| 0 <= q < |c| && c[q] == e;
    assert Keys(c)[q] == e.0;
    GetAt(c, q);
    ScoresGet(ms, user, e.0);
  }

  /** Of two entries of the counter, the earlier one holds the word that
      appears first. */
  lemma ScoresOrder(ms: seq<Message>, user: string, p: nat, q: nat)
    requires p < q < |Scores(ms, user)|
    ensures var c := Scores(ms, user);
            c[p].0 in AllWords(ms) && c[q].0 in AllWords(ms)
            && FirstIndex(AllWords(ms), c[p].0) < FirstIndex(AllWords(ms), c[q].0)
  {
    var c := Scores(ms, user);
    ScoresKeys(ms, user);
    assert Keys(c)[p] == c[p].0 && Keys(c)[q] == c[q].0;
  }

  /** Each returned entry is a word of the messages with its score. */
  lemma DistinctiveWordsEntry(ms: seq<Message>, user: string, n: int, i: nat)
    requires i < |DistinctiveWords(ms, user, n)|
    ensures DistinctiveWords(ms, user, n)[i].0 in AllWords(ms)
    ensures DistinctiveWords(ms, user, n)[i].1 == Score(ms, user, DistinctiveWords(ms, user, n)[i].0)
  {
    var r := DistinctiveWords(ms, user, n);
    MostCommonTop(Scores(ms, user), n);
    assert r[i] in multiset(r);
    EntryScore(ms, user, r[i]);
  }

  /** Two returned entries come by decreasing score, and with equal
      scores in order of the words' first appearance. */
  lemma DistinctiveWordsPair(ms: seq<Message>, user: string, n: int, i: nat, j: nat)
    requires i < j < |DistinctiveWords(ms, user, n)|
    ensures var a, b := DistinctiveWords(ms, user, n)[i], DistinctiveWords(ms, user, n)[j];
            a.0 in AllWords(ms) && b.0 in AllWords(ms)
            && (a.1 > b.1 || (a.1 == b.1 && FirstIndex(AllWords(ms), a.0) < FirstIndex(AllWords(ms), b.0)))
  {
    var c := Scores(ms, user);
    var r := DistinctiveWords(ms, user, n);
    DistinctiveWordsEntry(ms, user, n, i);
    DistinctiveWordsEntry(ms, user, n, j);
    MostCommonTop(c, n);
    assert r[i].1 > r[j].1 || (r[i].1 == r[j].1 && Earlier(c, r[i], r[j]));
    if r[i].1 <= r[j].1 {
      var p, q :| 0 <= p < q < |c| && c[p] == r[i] && c[q] == r[j];
      ScoresOrder(ms, user, p, q);
    }
  }

  /** The returned words are distinct, come by decreasing score, and words
      with equal scores come in order of first appearance. */
  lemma DistinctiveWordsOrder(ms: seq<Message>, user: string, n: int)
    ensures forall i, j :: 0 <= i < j < |DistinctiveWords(ms, user, n)| ==>
              var a, b := DistinctiveWords(ms, user, n)[i], DistinctiveWords(ms, user, n)[j];
              a.0 in AllWords(ms) && b.0 in AllWords(ms) && a.0 != b.0
              && (a.1 > b.1 || (a.1 == b.1 && FirstIndex(AllWords(ms), a.0) < FirstIndex(AllWords(ms), b.0)))
  {
    var r := DistinctiveWords(ms, user, n);
    forall i, j | 0 <= i < j < |r|
      ensures r[i].0 in AllWords(ms) && r[j].0 in AllWords(ms) && r[i].0 != r[j].0
      ensures r[i].1 > r[j].1 || (r[i].1 == r[j].1 && FirstIndex(AllWords(ms), r[i].0) < FirstIndex(AllWords(ms), r[j].0))
    {
      DistinctiveWordsEntry(ms, user, n, i);
      DistinctiveWordsEntry(ms, user, n, j);
      DistinctiveWordsPair(ms, user, n, i, j);
    }
  }

  /** At most `n` entries come back, and fewer only when every word of the
      messages does. */
  lemma DistinctiveWordsAll(ms: seq<Message>, user: string, n: int)
    ensures |DistinctiveWords(ms, user, n)| <= if n <= 0 then 0 else n
    ensures |DistinctiveWords(ms, user, n)| < n ==>
              forall w :: w in AllWords(ms) ==> w in Keys(DistinctiveWords(ms, user, n))
  {
    var c := Scores(ms, user);
    var r := DistinctiveWords(ms, user, n);
    if |r| < n {
      MostCommonAll(c, n);
      ScoresKeys(ms, user);
      forall w | w in AllWords(ms)
        ensures w in Keys(r)
      {
        var q :| 0 <= q < |c| && Keys(c)[q] == w;
        assert c[q] in multiset(r);
        var i :| 0 <= i < |r| && r[i] == c[q];
        assert Keys(r)[i] == w;
      }
    }
  }

  /** A word left out scores lower than any word returned, or as high and
      first appears later. */
  lemma DistinctiveWordsTop(ms: seq<Message>, user: string, n: int, w: string)
    requires w in AllWords(ms) && w !in Keys(DistinctiveWords(ms, user, n))
    ensures forall i :: 0 <= i < |DistinctiveWords(ms, user, n)| ==>
              var y := DistinctiveWords(ms, user, n)[i];
              y.0 in AllWords(ms)
              && (Score(ms, user, w) < y.1
                  || (Score(ms, user, w) == y.1 && FirstIndex(AllWords(ms), y.0) < FirstIndex(AllWords(ms), w)))
  {
    var c := Scores(ms, user);
    var r := DistinctiveWords(ms, user, n);
    ScoresKeys(ms, user);
    var q :| 0 <= q < |c| && Keys(c)[q] == w;
    var z := c[q];
    EntryScore(ms, user, z);
    assert z !in r;
    MostCommonLeftOut(c, n, z);
    forall i | 0 <= i < |r|
      ensures r[i].0 in AllWords(ms)
      ensures Score(ms, user, w) < r[i].1
              || (Score(ms, user, w) == r[i].1 && FirstIndex(AllWords(ms), r[i].0) < FirstIndex(AllWords(ms), w))
    {
      DistinctiveWordsEntry(ms, user, n, i);
      if r[i].1 <= z.1 {
        var p1, q1 :| 0 <= p1 < q1 < |c| && c[p1] == r[i] && c[q1] == z;
        ScoresOrder(ms, user, p1, q1);
      }
    }
  }


  /** The three messages at the end of src/whatsapp_utiles.py. */
  function DemoMessages(): seq<Message> {
    [Message(Date(2024, 1, 1), Time(10, 0, 0), "Usuario1", "Hola mundo hola"),
     Message(Date(2024, 1, 2), Time(11, 0, 0), "Usuario2", "Hola adios"),
     Message(Date(2024, 1, 3), Time(12, 0, 0), "Usuario1", "mundo python")]
  }

  lemma WordsOfJoined(m: Message, lowered: string, ws: seq<string>)
    requires Lower(m.text) == lowered && JoinSpace(ws) == lowered
    requires forall k :: 0 <= k < |ws| ==> ws[k] != [] && NoSpace(ws[k])
    ensures WordsOf(m) == ws
  {
    WordsJoinSpace(ws);
  }

  lemma DemoWords0()
    ensures WordsOf(DemoMessages()[0]) == ["hola", "mundo", "hola"]
  {
    var m := DemoMessages()[0];
    assert m.text == "Hola mundo hola";
    assert Lower("Hola mundo hola") == "hola mundo hola";
    assert JoinSpace(["hola", "mundo", "hola"]) == "hola mundo hola";
    WordsOfJoined(m, "hola mundo hola", ["hola", "mundo", "hola"]);
  }
  lemma DemoWords1()
    ensures WordsOf(DemoMessages()[1]) == ["hola", "adios"]
  {
    var m := DemoMessages()[1];
    assert m.text == "Hola adios";
    assert Lower("Hola adios") == "hola adios";
    assert JoinSpace(["hola", "adios"]) == "hola adios";
    WordsOfJoined(m, "hola adios", ["hola", "adios"]);
  }
  lemma DemoWords2()
    ensures WordsOf(DemoMessages()[2]) == ["mundo", "python"]
  {
    var m := DemoMessages()[2];
    assert m.text == "mundo python";
    assert Lower("mundo python") == "mundo python";
    assert JoinSpace(["mundo", "python"]) == "mundo python";
    WordsOfJoined(m, "mundo python", ["mundo", "python"]);
  }
  lemma DemoFirst()
    ensures AddAll([], ["hola", "mundo", "hola"], 1) == [("hola", 2), ("mundo", 1)]
  {
    var w0: seq<string> := ["hola", "mundo", "hola"];
    assert w0[..2][..1] == ["hola"] && w0[..2] == ["hola", "mundo"];
    assert ["hola"][..0] == [];
    assert "hola" != "mundo" by { assert "hola"[0] != "mundo"[0]; }
    var a: Counter<string> := [("hola", 1)];
    assert AddAll([], ["hola"], 1) == a;
    assert a[1..] == [];
    assert Add(a, "mundo", 1) == [("hola", 1), ("mundo", 1)];
    assert AddAll([], ["hola", "mundo"], 1) == [("hola", 1), ("mundo", 1)];
  }
  lemma DemoSecond()
    ensures AddAll([("hola", 2), ("mundo", 1)], ["hola", "adios"], -1) == [("hola", 1), ("mundo", 1), ("adios", -1)]
  {
    var w1: seq<string> := ["hola", "adios"];
    assert w1[..1] == ["hola"];
    assert ["hola"][..0] == [];
    assert "hola" != "adios" by { assert "hola"[0] != "adios"[0]; }
    assert "mundo" != "adios" by { assert "mundo"[0] != "adios"[0]; }
    var a: Counter<string> := [("hola", 1), ("mundo", 1)];
    assert AddAll([("hola", 2), ("mundo", 1)], ["hola"], -1) == a;
    assert a[1..] == [("mundo", 1)] && a[1..][1..] == [];
    assert Add(a[1..], "adios", -1) == [("mundo", 1), ("adios", -1)];
  }
  lemma DemoThird()
    ensures AddAll([("hola", 1), ("mundo", 1), ("adios", -1)], ["mundo", "python"], 1) == [("hola", 1), ("mundo", 2), ("adios", -1), ("python", 1)]
  {
    var w2: seq<string> := ["mundo", "python"];
    assert w2[..1] == ["mundo"];
    assert ["mundo"][..0] == [];
    assert "hola" != "mundo" by { assert "hola"[0] != "mundo"[0]; }
    assert "hola" != "python" by { assert "hola"[0] != "python"[0]; }
    assert "mundo" != "python" by { assert "mundo"[0] != "python"[0]; }
    assert "adios" != "python" by { assert "adios"[0] != "python"[0]; }
    var c: Counter<string> := [("hola", 1), ("mundo", 1), ("adios", -1)];
    assert c[1..] == [("mundo", 1), ("adios", -1)];
    var a: Counter<string> := [("hola", 1), ("mundo", 2), ("adios", -1)];
    assert AddAll(c, ["mundo"], 1) == a;
    assert a[1..] == [("mundo", 2), ("adios", -1)] && a[1..][1..] == [("adios", -1)] && a[1..][1..][1..] == [];
    assert Add(a[1..][1..], "python", 1) == [("adios", -1), ("python", 1)];
    assert Add(a[1..], "python", 1) == [("mundo", 2), ("adios", -1), ("python", 1)];
  }
  lemma DemoSorted()
    ensures SortDesc([("hola", 1), ("mundo", 2), ("adios", -1), ("python", 1)]) == [("mundo", 2), ("hola", 1), ("python", 1), ("adios", -1)]
  {
    var c: Counter<string> := [("hola", 1), ("mundo", 2), ("adios", -1), ("python", 1)];
    assert c[..1] == [("hola", 1)] && c[..2] == [("hola", 1), ("mundo", 2)];
    assert c[..3] == [("hola", 1), ("mundo", 2), ("adios", -1)];
    assert c[..1][..0] == [];
    assert SortDesc(c[..1]) == [("hola", 1)];
    assert SortDesc(c[..2]) == [("mundo", 2), ("hola", 1)];
    var s2: Counter<string> := [("mundo", 2), ("hola", 1)];
    assert c[..3][..2] == c[..2];
    assert s2[1..] == [("hola", 1)] && s2[1..][1..] == [];
    assert Insert(s2[1..], ("adios", -1)) == [("hola", 1), ("adios", -1)];
    var s3: Counter<string> := [("mundo", 2), ("hola", 1), ("adios", -1)];
    assert SortDesc(c[..3]) == Insert(s2, ("adios", -1)) == s3;
    assert s3[1..] == [("hola", 1), ("adios", -1)] && s3[1..][1..] == [("adios", -1)];
    assert Insert(s3[1..], ("python", 1)) == [("hola", 1), ("python", 1), ("adios", -1)];
  }

  lemma DemoScores()
    ensures Scores(DemoMessages(), "Usuario1") == [("hola", 1), ("mundo", 2), ("adios", -1), ("python", 1)]
  {
    var ms := DemoMessages();
    DemoWords0();
    DemoWords1();
    DemoWords2();
    assert ms[..0] == [] && ms[..1][..0] == [] && ms[..2][..1] == ms[..1] && ms[..3] == ms;
    DemoFirst();
    assert Scores(ms[..1], "Usuario1") == [("hola", 2), ("mundo", 1)];
    DemoSecond();
    assert Scores(ms[..2], "Usuario1") == [("hola", 1), ("mundo", 1), ("adios", -1)];
    DemoThird();
  }

  /** For "Usuario1", "mundo" scores 2 and "hola" and "python" score 1
      ("hola" first, as it appeared first); "adios" scores -1 and is left
      out. */
  lemma DemoDistinctiveWords()
    ensures DistinctiveWords(DemoMessages(), "Usuario1", 3) == [("mundo", 2), ("hola", 1), ("python", 1)]
  {
    DemoScores();
    DemoSorted();
  }
}
