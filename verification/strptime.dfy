/** The part of CPython's `datetime.strptime` that `_convertir_fechahora`
    (src/whatsapp_loader.py, lines 51-94) relies on, for the ten formats it
    tries.

    `strptime` turns the format into a regular expression: every directive
    becomes a group of fixed-width alternatives, every run of whitespace
    becomes `\s+`, and the expression is matched case-insensitively at the
    start of the text. The first match in `re`'s priority order must end
    exactly at the end of the text ("unconverted data remains" otherwise),
    and the fields must then form a valid date and time. Any failure is a
    `ValueError`, which the caller answers by trying the next format. */
module Strptime {
  import opened Chars
  import opened Optional
  import opened Calendar

  /** The directives used by the program's formats. */
  datatype Directive =
    | Day       // %d
    | Month     // %m
    | Year4     // %Y
    | Year2     // %y
    | Hour24    // %H
    | Hour12    // %I
    | Minute    // %M
    | Second    // %S
    | AmPm      // %p

  /** One element of a format: a directive, a literal character, or a run
      of whitespace in the format (which becomes `\s+`). */
  datatype Item = Field(d: Directive) | Literal(c: char) | Blank

  type Format = seq<Item>

  /** What one position of an alternative accepts. */
  datatype Atom = AnyDigit | Among(cs: string)

  predicate Accepts(a: Atom, c: char) {
    match a
    case AnyDigit => IsDigit(c)
    case Among(cs) => c in cs
  }

  const NonZero: Atom := Among("123456789")

  /** The alternatives of each directive's group, in the order the
      generated expression lists them. Letters are given in both cases
      because the expression is compiled with `re.IGNORECASE`. */
  function Alternatives(d: Directive): seq<seq<Atom>> {
    match d
    case Day => [[Among("3"), Among("01")], [Among("12"), AnyDigit], [Among("0"), NonZero], [NonZero], [Among(" "), NonZero]]
    case Month => [[Among("1"), Among("012")], [Among("0"), NonZero], [NonZero]]
    case Year4 => [[AnyDigit, AnyDigit, AnyDigit, AnyDigit]]
    case Year2 => [[AnyDigit, AnyDigit]]
    case Hour24 => [[Among("2"), Among("0123")], [Among("01"), AnyDigit], [AnyDigit]]
    case Hour12 => [[Among("1"), Among("012")], [Among("0"), NonZero], [NonZero], [Among(" "), NonZero]]
    case Minute => [[Among("012345"), AnyDigit], [AnyDigit]]
    case Second => [[Among("6"), Among("01")], [Among("012345"), AnyDigit], [AnyDigit]]
    case AmPm => [[Among("aA"), Among("mM")], [Among("pP"), Among("mM")]]
  }

  /** The alternative `alt` matches at position `i` of `s`. */
  predicate Fits(alt: seq<Atom>, s: string, i: nat) {
    i + |alt| <= |s| && forall k :: 0 <= k < |alt| ==> Accepts(alt[k], s[i + k])
  }

  /** A captured group: the directive and the text it matched. */
  datatype Capture = Capture(d: Directive, text: string)

  /** A match of a whole format: where it ends and what each group took. */
  datatype Found = Found(end: nat, caps: seq<Capture>)

  /** The length of the whitespace run at `i`. */
  function BlankRun(s: string, i: nat): (n: nat)
    requires i <= |s|
    ensures i + n <= |s| && SpaceBetween(s, i, i + n)
    ensures i + n == |s| || !IsSpace(s[i + n])
  {
    SkipSpace(s, i) - i
  }

  /** The first match of format `f` at position `i`, in `re`'s priority
      order: the alternatives of a group left to right, and `\s+` from its
      longest run down. */
  function Search(f: Format, s: string, i: nat, caps: seq<Capture>): (r: Option<Found>)
    requires i <= |s|
    ensures r.Some? ==> i <= r.value.end <= |s|
    decreases |f|, 0, 0
  {
    if |f| == 0 then Some(Found(i, caps))
    else
      match f[0]
      case Literal(c) =>
        if i < |s| && s[i] == c then Search(f[1..], s, i + 1, caps) else None
      case Blank =>
        TryBlank(f[1..], s, i, caps, BlankRun(s, i))
      case Field(d) =>
        TryAlts(d, f[1..], s, i, caps, 0)
  }

  /** `\s+` holding `n` characters: try the rest, and give one back while
      that fails. */
  function TryBlank(rest: Format, s: string, i: nat, caps: seq<Capture>, n: nat): (r: Option<Found>)
    requires i + n <= |s|
    ensures r.Some? ==> i <= r.value.end <= |s|
    decreases |rest|, 1, n
  {
    if n == 0 then None
    else
      var r := Search(rest, s, i + n, caps);
      if r.Some? then r else TryBlank(rest, s, i, caps, n - 1)
  }

  /** The group of `d` trying its alternatives from the `k`-th on. */
  function TryAlts(d: Directive, rest: Format, s: string, i: nat, caps: seq<Capture>, k: nat): (r: Option<Found>)
    requires i <= |s|
    ensures r.Some? ==> i <= r.value.end <= |s|
    decreases |rest|, 1, |Alternatives(d)| - k
  {
    var alts := Alternatives(d);
    if k >= |alts| then None
    else if Fits(alts[k], s, i) then
      var n := |alts[k]|;
      var r := Search(rest, s, i + n, caps + [Capture(d, s[i..i + n])]);
      if r.Some? then r else TryAlts(d, rest, s, i, caps, k + 1)
    else TryAlts(d, rest, s, i, caps, k + 1)
  }

  /** The text the first group of directive `d` captured. */
  function Lookup(caps: seq<Capture>, d: Directive): Option<string> {
    if |caps| == 0 then None
    else if caps[0].d == d then Some(caps[0].text)
    else Lookup(caps[1..], d)
  }

  /** `int(x)` for a run of digits, possibly after a leading space. */
  function Number(x: string): nat {
    if |x| == 0 then 0
    else
      var d := if IsDigit(x[|x| - 1]) then DigitValue(x[|x| - 1]) else 0;
      10 * Number(x[..|x| - 1]) + d
  }

  /** The field's value, or `default` when the format has no such directive. */
  function ValueOr(caps: seq<Capture>, d: Directive, default: int): int {
    match Lookup(caps, d)
    case None => default
    case Some(x) => Number(x)
  }

  /** A two-digit year: 69 to 99 are the twentieth century, 00 to 68 the
      twenty-first. */
  function Century(y: int): int {
    if y <= 68 then y + 2000 else y + 1900
  }

  /** The year, month and day the captures name (1900-01-01 by default). */
  function DateOf(caps: seq<Capture>): Date {
    var year :=
      match Lookup(caps, Year4)
      case Some(x) => Number(x)
      case None =>
        match Lookup(caps, Year2)
        case Some(x) => Century(Number(x))
        case None => 1900;
    Date(year, ValueOr(caps, Month, 1), ValueOr(caps, Day, 1))
  }

  /** The hour from `%I` and `%p`: 12 AM is midnight, and PM adds twelve
      except to 12. */
  function Hour12Of(h: int, p: Option<string>): int {
    match p
    case Some(x) =>
      if Lower(x) == "pm" then (if h != 12 then h + 12 else h)
      else if Lower(x) == "am" && h == 12 then 0
      else h
    case None => if h == 12 then 0 else h
  }

  /** The hour, minute and second the captures name (midnight by default). */
  function TimeOf(caps: seq<Capture>): Time {
    var hour :=
      match Lookup(caps, Hour24)
      case Some(x) => Number(x)
      case None =>
        match Lookup(caps, Hour12)
        case Some(x) => Hour12Of(Number(x), Lookup(caps, AmPm))
        case None => 0;
    Time(hour, ValueOr(caps, Minute, 0), ValueOr(caps, Second, 0))
  }

  /** `datetime.strptime(s, f)`: the date and time, or `None` for a
      `ValueError`. */
  function Strptime(s: string, f: Format): (r: Option<(Date, Time)>)
    ensures r.Some? ==> ValidDate(r.value.0) && ValidTime(r.value.1)
  {
    match Search(f, s, 0, [])
    case None => None
    case Some(found) =>
      if found.end != |s| then None
      else
        var d := DateOf(found.caps);
        var t := TimeOf(found.caps);
        if ValidDate(d) && ValidTime(t) then Some((d, t)) else None
  }

  /** The date formats of `_convertir_fechahora`, in the order it tries them. */
  const DateFormats: seq<Format> := [
    [Field(Day), Literal('/'), Field(Month), Literal('/'), Field(Year4)],
    [Field(Day), Literal('/'), Field(Month), Literal('/'), Field(Year2)],
    [Field(Month), Literal('/'), Field(Day), Literal('/'), Field(Year2)],
    [Field(Month), Literal('/'), Field(Day), Literal('/'), Field(Year4)],
    [Field(Year4), Literal('-'), Field(Month), Literal('-'), Field(Day)]
  ]

  /** The time formats of `_convertir_fechahora`, in the order it tries them. */
  const TimeFormats: seq<Format> := [
    [Field(Hour24), Literal(':'), Field(Minute)],
    [Field(Hour24), Literal(':'), Field(Minute), Literal(':'), Field(Second)],
    [Field(Hour12), Literal(':'), Field(Minute), Blank, Field(AmPm)],
    [Field(Hour12), Literal(':'), Field(Minute), Literal(':'), Field(Second), Blank, Field(AmPm)],
    [Field(Hour24), Literal(':'), Field(Minute), Blank, Field(AmPm)]
  ]

  /** The first format of `fs` under which `s` parses. */
  function FirstParse(s: string, fs: seq<Format>): (r: Option<(Date, Time)>)
    ensures r.Some? ==> ValidDate(r.value.0) && ValidTime(r.value.1)
    ensures r.Some? ==> exists k :: 0 <= k < |fs| && Strptime(s, fs[k]) == r
                                   && forall j :: 0 <= j < k ==> Strptime(s, fs[j]).None?
    ensures r.None? ==> forall k :: 0 <= k < |fs| ==> Strptime(s, fs[k]).None?
  {
    if |fs| == 0 then None
    else
      var r := Strptime(s, fs[0]);
      if r.Some? then r
      else
        var r' := FirstParse(s, fs[1..]);
        FirstParseShift(s, fs, r');
        r'
  }

  /** A result of the formats after the first, when the first fails, is a
      result of all of them. */
  lemma FirstParseShift(s: string, fs: seq<Format>, r: Option<(Date, Time)>)
    requires |fs| > 0 && Strptime(s, fs[0]).None?
    requires r.Some? ==> exists k :: 0 <= k < |fs[1..]| && Strptime(s, fs[1..][k]) == r
                                     && forall j :: 0 <= j < k ==> Strptime(s, fs[1..][j]).None?
    requires r.None? ==> forall k :: 0 <= k < |fs[1..]| ==> Strptime(s, fs[1..][k]).None?
    ensures r.Some? ==> exists k :: 0 <= k < |fs| && Strptime(s, fs[k]) == r
                                   && forall j :: 0 <= j < k ==> Strptime(s, fs[j]).None?
    ensures r.None? ==> forall k :: 0 <= k < |fs| ==> Strptime(s, fs[k]).None?
  {
    assert forall k :: 0 < k < |fs| ==> fs[k] == fs[1..][k - 1];
    if r.Some? {
      var k :| 0 <= k < |fs[1..]| && Strptime(s, fs[1..][k]) == r
               && forall j :: 0 <= j < k ==> Strptime(s, fs[1..][j]).None?;
      assert Strptime(s, fs[k + 1]) == r;
      forall j | 0 <= j < k + 1
        ensures Strptime(s, fs[j]).None?
      {
        if j > 0 {
          assert fs[j] == fs[1..][j - 1];
        }
      }
    }
  }

  /** The date half of `_convertir_fechahora`. */
  function ParseDate(s: string): (r: Option<Date>)
    ensures r.Some? ==> ValidDate(r.value)
  {
    match FirstParse(s, DateFormats)
    case None => None
    case Some(dt) => Some(dt.0)
  }

  /** `hora_str.replace('.', '').upper()` */
  function CleanTime(s: string): string {
    Upper(RemoveDots(s))
  }

  /** The time half of `_convertir_fechahora`: the time text is cleaned,
      then tried under each time format. */
  function ParseTime(s: string): (r: Option<Time>)
    ensures r.Some? ==> ValidTime(r.value)
  {
    match FirstParse(CleanTime(s), TimeFormats)
    case None => None
    case Some(dt) => Some(dt.1)
  }

  // ---------------------------------------------------------------------
  // How the search picks its alternatives.

  /** Alternatives that do not fit are passed over. */
  lemma {:induction false} TryAltsSkip(d: Directive, rest: Format, s: string, i: nat, caps: seq<Capture>, k: nat, k0: nat)
    requires i <= |s| && k <= k0 <= |Alternatives(d)|
    requires forall j :: k <= j < k0 ==> !Fits(Alternatives(d)[j], s, i)
    ensures TryAlts(d, rest, s, i, caps, k) == TryAlts(d, rest, s, i, caps, k0)
    decreases k0 - k
  {
    if k < k0 {
      TryAltsSkip(d, rest, s, i, caps, k + 1, k0);
    }
  }

  /** The group takes the first alternative that fits, when the rest of
      the format then matches. */
  lemma TryAltsPick(d: Directive, rest: Format, s: string, i: nat, caps: seq<Capture>, k0: nat)
    requires i <= |s| && k0 < |Alternatives(d)| && Fits(Alternatives(d)[k0], s, i)
    requires forall j :: 0 <= j < k0 ==> !Fits(Alternatives(d)[j], s, i)
    requires var n := |Alternatives(d)[k0]|;
             Search(rest, s, i + n, caps + [Capture(d, s[i..i + n])]).Some?
    ensures var n := |Alternatives(d)[k0]|;
            TryAlts(d, rest, s, i, caps, 0) == Search(rest, s, i + n, caps + [Capture(d, s[i..i + n])])
  {
    TryAltsSkip(d, rest, s, i, caps, 0, k0);
  }

  /** The group fails when every alternative either does not fit or leaves
      the rest of the format unmatched. */
  lemma {:induction false} TryAltsNone(d: Directive, rest: Format, s: string, i: nat, caps: seq<Capture>, k: nat)
    requires i <= |s|
    requires forall j :: k <= j < |Alternatives(d)| && Fits(Alternatives(d)[j], s, i)
               ==> Search(rest, s, i + |Alternatives(d)[j]|,
                          caps + [Capture(d, s[i..i + |Alternatives(d)[j]|])]).None?
    ensures TryAlts(d, rest, s, i, caps, k) == None
    decreases |Alternatives(d)| - k
  {
    if k < |Alternatives(d)| {
      TryAltsNone(d, rest, s, i, caps, k + 1);
    }
  }

  // ---------------------------------------------------------------------
  // Two-digit and four-digit fields, as `strftime` writes them.

  function DigitChar(n: nat): (c: char)
    requires n <= 9
    ensures IsDigit(c) && DigitValue(c) == n
  {
    ('0' as int + n) as char
  }

  /** `%02d` */
  function TwoDigits(n: nat): (x: string)
    requires n <= 99
    ensures |x| == 2 && IsDigit(x[0]) && IsDigit(x[1])
  {
    [DigitChar(n / 10), DigitChar(n % 10)]
  }

  /** `%04d` */
  function FourDigits(n: nat): (x: string)
    requires n <= 9999
    ensures |x| == 4 && forall k :: 0 <= k < 4 ==> IsDigit(x[k])
  {
    [DigitChar(n / 1000), DigitChar(n / 100 % 10), DigitChar(n / 10 % 10), DigitChar(n % 10)]
  }

  /** `int` reads back what `%02d` writes. */
  lemma NumberTwoDigits(n: nat)
    requires n <= 99
    ensures Number(TwoDigits(n)) == n
  {
    var x := TwoDigits(n);
    assert x[..1] == [x[0]];
    assert [x[0]][..0] == [];
    assert Number([x[0]]) == n / 10;
  }

  /** A number as a writer sets it down: two digits, or a single one below
      ten when the writer does not pad it. */
  function Written(n: nat, pad: bool): (x: string)
    requires n <= 99
    ensures |x| == (if pad || n >= 10 then 2 else 1)
    ensures forall k :: 0 <= k < |x| ==> IsDigit(x[k])
  {
    if pad || n >= 10 then TwoDigits(n) else [DigitChar(n)]
  }

  /** `int` reads back what the writer set down. */
  lemma NumberWritten(n: nat, pad: bool)
    requires n <= 99
    ensures Number(Written(n, pad)) == n
  {
    if pad || n >= 10 {
      NumberTwoDigits(n);
    } else {
      assert [DigitChar(n)][..0] == [];
    }
  }

  /** `int` reads back what `%04d` writes. */
  lemma NumberFourDigits(n: nat)
    requires n <= 9999
    ensures Number(FourDigits(n)) == n
  {
    var x := FourDigits(n);
    TenthOfTenth(n);
    TenthOfTenth(n / 10);
    assert x[..3][..2] == x[..2] && x[..2][..1] == x[..1] && x[..1][..0] == [];
    assert x[..4] == x;
    assert Number(x[..1]) == n / 1000;
    assert Number(x[..2]) == 10 * (n / 1000) + n / 100 % 10 == n / 100;
    assert Number(x[..3]) == 10 * (n / 100) + n / 10 % 10 == n / 10;
  }

  lemma TenthOfTenth(n: nat)
    ensures n / 10 / 10 == n / 100 && n / 100 / 10 == n / 1000
  {
    var q, r := n / 1000, n % 1000;
    assert n == 1000 * q + r;
    assert n / 100 == 10 * q + r / 100;
    assert n / 10 == 100 * q + r / 10;
  }

  /** An alternative whose first position rejects the character at `i`
      does not fit there. */
  lemma FirstRejected(alt: seq<Atom>, s: string, i: nat)
    requires i < |s| && |alt| > 0
    requires alt[0].Among? && s[i] !in alt[0].cs
    ensures !Fits(alt, s, i)
  {
    assert !Accepts(alt[0], s[i + 0]);
  }

  /** Two characters that each atom of a two-atom alternative accepts fit
      it. */
  lemma FitsPair(alt: seq<Atom>, s: string, i: nat)
    requires |alt| == 2 && i + 2 <= |s| && Accepts(alt[0], s[i]) && Accepts(alt[1], s[i + 1])
    ensures Fits(alt, s, i)
  {
    assert s[i + 0] == s[i];
  }

  /** A character the atom of a one-atom alternative accepts fits it. */
  lemma FitsSingle(alt: seq<Atom>, s: string, i: nat)
    requires |alt| == 1 && i < |s| && Accepts(alt[0], s[i])
    ensures Fits(alt, s, i)
  {
    assert s[i + 0] == s[i];
  }

  /** A two-digit day is taken whole by `%d`. */
  lemma DayPick(rest: Format, s: string, i: nat, caps: seq<Capture>, n: nat)
    requires i + 2 <= |s| && 1 <= n <= 31 && s[i..i + 2] == TwoDigits(n)
    requires Search(rest, s, i + 2, caps + [Capture(Day, TwoDigits(n))]).Some?
    ensures TryAlts(Day, rest, s, i, caps, 0) == Search(rest, s, i + 2, caps + [Capture(Day, TwoDigits(n))])
  {
    var x := TwoDigits(n);
    assert s[i] == x[0] && s[i + 1] == x[1];
    var alts := Alternatives(Day);
    if n >= 30 {
      FitsPair(alts[0], s, i);
      TryAltsPick(Day, rest, s, i, caps, 0);
    } else if n >= 10 {
      FirstRejected(alts[0], s, i);
      FitsPair(alts[1], s, i);
      TryAltsPick(Day, rest, s, i, caps, 1);
    } else {
      FirstRejected(alts[0], s, i);
      FirstRejected(alts[1], s, i);
      FitsPair(alts[2], s, i);
      TryAltsPick(Day, rest, s, i, caps, 2);
    }
  }

  /** A two-digit month is taken whole by `%m`. */
  lemma MonthPick(rest: Format, s: string, i: nat, caps: seq<Capture>, n: nat)
    requires i + 2 <= |s| && 1 <= n <= 12 && s[i..i + 2] == TwoDigits(n)
    requires Search(rest, s, i + 2, caps + [Capture(Month, TwoDigits(n))]).Some?
    ensures TryAlts(Month, rest, s, i, caps, 0) == Search(rest, s, i + 2, caps + [Capture(Month, TwoDigits(n))])
  {
    var x := TwoDigits(n);
    assert s[i] == x[0] && s[i + 1] == x[1];
    if n >= 10 {
      FitsPair(Alternatives(Month)[0], s, i);
      TryAltsPick(Month, rest, s, i, caps, 0);
    } else {
      FirstRejected(Alternatives(Month)[0], s, i);
      FitsPair(Alternatives(Month)[1], s, i);
      TryAltsPick(Month, rest, s, i, caps, 1);
    }
  }

  /** Four digits are taken by `%Y`. */
  lemma Year4Pick(rest: Format, s: string, i: nat, caps: seq<Capture>, n: nat)
    requires i + 4 <= |s| && n <= 9999 && s[i..i + 4] == FourDigits(n)
    requires Search(rest, s, i + 4, caps + [Capture(Year4, FourDigits(n))]).Some?
    ensures TryAlts(Year4, rest, s, i, caps, 0) == Search(rest, s, i + 4, caps + [Capture(Year4, FourDigits(n))])
  {
    var x := FourDigits(n);
    var alt := Alternatives(Year4)[0];
    forall k | 0 <= k < 4
      ensures Accepts(alt[k], s[i + k])
    {
      assert s[i + k] == x[k];
    }
    TryAltsPick(Year4, rest, s, i, caps, 0);
  }

  /** A two-digit hour from 00 to 23 is taken whole by `%H`. */
  lemma Hour24Pick(rest: Format, s: string, i: nat, caps: seq<Capture>, n: nat)
    requires i + 2 <= |s| && n <= 23 && s[i..i + 2] == TwoDigits(n)
    requires Search(rest, s, i + 2, caps + [Capture(Hour24, TwoDigits(n))]).Some?
    ensures TryAlts(Hour24, rest, s, i, caps, 0) == Search(rest, s, i + 2, caps + [Capture(Hour24, TwoDigits(n))])
  {
    var x := TwoDigits(n);
    assert s[i] == x[0] && s[i + 1] == x[1];
    if n >= 20 {
      FitsPair(Alternatives(Hour24)[0], s, i);
      TryAltsPick(Hour24, rest, s, i, caps, 0);
    } else {
      FirstRejected(Alternatives(Hour24)[0], s, i);
      FitsPair(Alternatives(Hour24)[1], s, i);
      TryAltsPick(Hour24, rest, s, i, caps, 1);
    }
  }

  /** Two-digit minutes from 00 to 59 are taken whole by `%M`. */
  lemma MinutePick(rest: Format, s: string, i: nat, caps: seq<Capture>, n: nat)
    requires i + 2 <= |s| && n <= 59 && s[i..i + 2] == TwoDigits(n)
    requires Search(rest, s, i + 2, caps + [Capture(Minute, TwoDigits(n))]).Some?
    ensures TryAlts(Minute, rest, s, i, caps, 0) == Search(rest, s, i + 2, caps + [Capture(Minute, TwoDigits(n))])
  {
    var x := TwoDigits(n);
    assert s[i] == x[0] && s[i + 1] == x[1];
    FitsPair(Alternatives(Minute)[0], s, i);
    TryAltsPick(Minute, rest, s, i, caps, 0);
  }

  // ---------------------------------------------------------------------
  // Reading back what WhatsApp writes.

  /** `dd/mm/yyyy` */
  function DayMonthYear(d: Date): (x: string)
    requires ValidDate(d)
    ensures |x| == 10
  {
    TwoDigits(d.day) + "/" + TwoDigits(d.month) + "/" + FourDigits(d.year)
  }

  /** The first date format, `%d/%m/%Y`, takes `dd/mm/yyyy` field by field. */
  lemma DayMonthYearSearch(d: Date)
    requires ValidDate(d)
    ensures Search(DateFormats[0], DayMonthYear(d), 0, [])
         == Some(Found(10, [Capture(Day, TwoDigits(d.day)), Capture(Month, TwoDigits(d.month)),
                            Capture(Year4, FourDigits(d.year))]))
  {
    var s := DayMonthYear(d);
    var c1 := [Capture(Day, TwoDigits(d.day))];
    var c2 := c1 + [Capture(Month, TwoDigits(d.month))];
    var c3 := c2 + [Capture(Year4, FourDigits(d.year))];
    assert s[0..2] == TwoDigits(d.day) && s[2] == '/';
    assert s[3..5] == TwoDigits(d.month) && s[5] == '/';
    assert s[6..10] == FourDigits(d.year);
    var f := DateFormats[0];
    assert Search([], s, 10, c3) == Some(Found(10, c3));
    Year4Pick([], s, 6, c2, d.year);
    assert f[4..][1..] == [];
    assert Search(f[4..], s, 6, c2) == Some(Found(10, c3));
    assert Search(f[3..], s, 5, c2) == Some(Found(10, c3));
    MonthPick(f[3..], s, 3, c1, d.month);
    assert Search(f[2..], s, 3, c1) == Some(Found(10, c3));
    assert Search(f[1..], s, 2, c1) == Some(Found(10, c3));
    assert [] + c1 == c1;
    DayPick(f[1..], s, 0, [], d.day);
    assert c3 == [Capture(Day, TwoDigits(d.day)), Capture(Month, TwoDigits(d.month)), Capture(Year4, FourDigits(d.year))];
  }

  /** A directive that captured nothing reads as absent. */
  lemma {:induction false} LookupAbsent(caps: seq<Capture>, d: Directive)
    requires forall k :: 0 <= k < |caps| ==> caps[k].d != d
    ensures Lookup(caps, d) == None
  {
    if |caps| > 0 {
      assert forall k :: 0 <= k < |caps[1..]| ==> caps[1..][k] == caps[k + 1];
      LookupAbsent(caps[1..], d);
    }
  }

  /** A format without time directives leaves the time at midnight. */
  lemma MidnightByDefault(caps: seq<Capture>)
    requires forall k :: 0 <= k < |caps| ==> caps[k].d in {Day, Month, Year4, Year2}
    ensures TimeOf(caps) == Time(0, 0, 0)
  {
    LookupAbsent(caps, Hour24);
    LookupAbsent(caps, Hour12);
    LookupAbsent(caps, Minute);
    LookupAbsent(caps, Second);
  }

  /** The captures of `%d/%m/%Y` name a date and leave the time at midnight. */
  lemma DayMonthYearFields(a: string, b: string, c: string)
    ensures var caps := [Capture(Day, a), Capture(Month, b), Capture(Year4, c)];
            DateOf(caps) == Date(Number(c), Number(b), Number(a)) && TimeOf(caps) == Time(0, 0, 0)
  {
    var caps := [Capture(Day, a), Capture(Month, b), Capture(Year4, c)];
    assert caps[1..] == [Capture(Month, b), Capture(Year4, c)];
    assert caps[1..][1..] == [Capture(Year4, c)];
    assert caps[1..][1..][0] == Capture(Year4, c);
    assert Lookup(caps, Day) == Some(a);
    assert Lookup(caps, Month) == Lookup(caps[1..], Month) == Some(b);
    assert Lookup(caps, Year4) == Lookup(caps[1..][1..], Year4) == Some(c);
    MidnightByDefault(caps);
  }

  /** `strptime` reads `dd/mm/yyyy` back as the date it was written from. */
  lemma StrptimeDayMonthYear(d: Date)
    requires ValidDate(d)
    ensures Strptime(DayMonthYear(d), DateFormats[0]) == Some((d, Time(0, 0, 0)))
  {
    DayMonthYearSearch(d);
    NumberTwoDigits(d.day);
    NumberTwoDigits(d.month);
    NumberFourDigits(d.year);
    DayMonthYearFields(TwoDigits(d.day), TwoDigits(d.month), FourDigits(d.year));
  }

  /** A date written day first with a four-digit year is read back as
      itself: `%d/%m/%Y` is tried first. */
  lemma ParseDateDayMonthYear(d: Date)
    requires ValidDate(d)
    ensures ParseDate(DayMonthYear(d)) == Some(d)
  {
    StrptimeDayMonthYear(d);
  }

  /** `HH:MM` */
  function HourMinute(t: Time): (x: string)
    requires ValidTime(t)
    ensures |x| == 5
  {
    TwoDigits(t.hour) + ":" + TwoDigits(t.minute)
  }

  /** Text made of digits and colons is left alone by the cleaning step. */
  lemma {:induction false} CleanDigits(s: string)
    requires forall k :: 0 <= k < |s| ==> IsDigit(s[k]) || s[k] == ':'
    ensures CleanTime(s) == s
  {
    RemoveDotsNone(s);
  }

  lemma {:induction false} RemoveDotsNone(s: string)
    requires forall k :: 0 <= k < |s| ==> s[k] != '.'
    ensures RemoveDots(s) == s
  {
    if |s| > 0 {
      RemoveDotsNone(s[1..]);
      assert [s[0]] + s[1..] == s;
    }
  }

  /** After the hours, `:%M` takes the colon and the minutes of `HH:MM`. */
  lemma ColonMinuteSearch(t: Time, c1: seq<Capture>)
    requires ValidTime(t)
    ensures Search(TimeFormats[0][1..], HourMinute(t), 2, c1)
         == Some(Found(5, c1 + [Capture(Minute, TwoDigits(t.minute))]))
  {
    var s := HourMinute(t);
    var c2 := c1 + [Capture(Minute, TwoDigits(t.minute))];
    assert s[2] == ':' && s[3..5] == TwoDigits(t.minute);
    var f := [Literal(':'), Field(Minute)];
    assert TimeFormats[0][1..] == f;
    assert Search([], s, 5, c2) == Some(Found(5, c2));
    MinutePick([], s, 3, c1, t.minute);
    assert f[1..][1..] == [];
    assert Search(f[1..], s, 3, c1) == Some(Found(5, c2));
  }

  /** The first time format, `%H:%M`, takes `HH:MM` field by field. */
  lemma HourMinuteSearch(t: Time)
    requires ValidTime(t)
    ensures Search(TimeFormats[0], HourMinute(t), 0, [])
         == Some(Found(5, [Capture(Hour24, TwoDigits(t.hour)), Capture(Minute, TwoDigits(t.minute))]))
  {
    var s := HourMinute(t);
    var c1 := [Capture(Hour24, TwoDigits(t.hour))];
    assert s[0..2] == TwoDigits(t.hour);
    ColonMinuteSearch(t, c1);
    assert [] + c1 == c1;
    Hour24Pick(TimeFormats[0][1..], s, 0, [], t.hour);
    assert TimeFormats[0][0] == Field(Hour24);
    assert Search(TimeFormats[0], s, 0, []) == TryAlts(Hour24, TimeFormats[0][1..], s, 0, [], 0);
    assert c1 + [Capture(Minute, TwoDigits(t.minute))]
        == [Capture(Hour24, TwoDigits(t.hour)), Capture(Minute, TwoDigits(t.minute))];
  }

  /** The captures of `%H:%M` name a time on the default date. */
  lemma HourMinuteFields(a: string, b: string)
    ensures var caps := [Capture(Hour24, a), Capture(Minute, b)];
            TimeOf(caps) == Time(Number(a), Number(b), 0) && DateOf(caps) == Date(1900, 1, 1)
  {
    var caps := [Capture(Hour24, a), Capture(Minute, b)];
    assert caps[1..] == [Capture(Minute, b)];
    assert caps[1..][1..] == [];
    assert Lookup(caps, Hour24) == Some(a);
    assert Lookup(caps, Minute) == Lookup(caps[1..], Minute) == Some(b);
    LookupAbsent(caps, Second);
    LookupAbsent(caps, Year4);
    LookupAbsent(caps, Year2);
    LookupAbsent(caps, Month);
    LookupAbsent(caps, Day);
  }

  /** A time written as `HH:MM` is read back as itself: `%H:%M` is tried
      first. */
  lemma ParseTimeHourMinute(t: Time)
    requires ValidTime(t) && t.second == 0
    ensures ParseTime(HourMinute(t)) == Some(t)
  {
    var s := HourMinute(t);
    assert forall k :: 0 <= k < |s| ==> IsDigit(s[k]) || s[k] == ':';
    CleanDigits(s);
    HourMinuteSearch(t);
    NumberTwoDigits(t.hour);
    NumberTwoDigits(t.minute);
    HourMinuteFields(TwoDigits(t.hour), TwoDigits(t.minute));
    assert Strptime(s, TimeFormats[0]) == Some((Date(1900, 1, 1), t));
  }

  // ---------------------------------------------------------------------
  // Literal separators decide which formats can apply.

  /** `c` occurs in `s` at or after `i`. */
  predicate Occurs(c: char, s: string, i: nat) {
    exists j :: i <= j < |s| && s[j] == c
  }

  /** Every literal character of `f` occurs in `s` at or after `i`. */
  predicate LiteralsIn(f: Format, s: string, i: nat) {
    forall k :: 0 <= k < |f| && f[k].Literal? ==> Occurs(f[k].c, s, i)
  }

  lemma LiteralsInEarlier(f: Format, s: string, i: nat, j: nat)
    requires i <= j && LiteralsIn(f, s, j)
    ensures LiteralsIn(f, s, i)
  {
    forall k | 0 <= k < |f| && f[k].Literal?
      ensures Occurs(f[k].c, s, i)
    {
      var w :| j <= w < |s| && s[w] == f[k].c;
    }
  }

  lemma LiteralsInCons(f: Format, s: string, i: nat)
    requires |f| > 0 && LiteralsIn(f[1..], s, i)
    requires f[0].Literal? ==> Occurs(f[0].c, s, i)
    ensures LiteralsIn(f, s, i)
  {
    forall k | 0 < k < |f| && f[k].Literal?
      ensures Occurs(f[k].c, s, i)
    {
      assert f[k] == f[1..][k - 1];
    }
  }

  /** A format matches only text that holds each of its literal
      characters. */
  lemma {:induction false} SearchLiterals(f: Format, s: string, i: nat, caps: seq<Capture>)
    requires i <= |s| && Search(f, s, i, caps).Some?
    ensures LiteralsIn(f, s, i)
    decreases |f|, 0, 0
  {
    if |f| > 0 {
      match f[0]
      case Literal(c) =>
        SearchLiterals(f[1..], s, i + 1, caps);
        LiteralsInEarlier(f[1..], s, i, i + 1);
        LiteralsInCons(f, s, i);
      case Blank =>
        TryBlankLiterals(f[1..], s, i, caps, BlankRun(s, i));
        LiteralsInCons(f, s, i);
      case Field(d) =>
        TryAltsLiterals(d, f[1..], s, i, caps, 0);
        LiteralsInCons(f, s, i);
    }
  }

  lemma {:induction false} TryBlankLiterals(rest: Format, s: string, i: nat, caps: seq<Capture>, n: nat)
    requires i + n <= |s| && TryBlank(rest, s, i, caps, n).Some?
    ensures LiteralsIn(rest, s, i)
    decreases |rest|, 1, n
  {
    if Search(rest, s, i + n, caps).Some? {
      SearchLiterals(rest, s, i + n, caps);
      LiteralsInEarlier(rest, s, i, i + n);
    } else {
      TryBlankLiterals(rest, s, i, caps, n - 1);
    }
  }

  lemma {:induction false} TryAltsLiterals(d: Directive, rest: Format, s: string, i: nat, caps: seq<Capture>, k: nat)
    requires i <= |s| && TryAlts(d, rest, s, i, caps, k).Some?
    ensures LiteralsIn(rest, s, i)
    decreases |rest|, 1, |Alternatives(d)| - k
  {
    var alts := Alternatives(d);
    if Fits(alts[k], s, i) {
      var n := |alts[k]|;
      var c := caps + [Capture(d, s[i..i + n])];
      if Search(rest, s, i + n, c).Some? {
        SearchLiterals(rest, s, i + n, c);
        LiteralsInEarlier(rest, s, i, i + n);
      } else {
        TryAltsLiterals(d, rest, s, i, caps, k + 1);
      }
    } else {
      TryAltsLiterals(d, rest, s, i, caps, k + 1);
    }
  }

  /** A format fails on text that lacks one of its literal characters. */
  lemma StrptimeMissing(s: string, f: Format, k: nat)
    requires k < |f| && f[k].Literal? && f[k].c !in s
    ensures Strptime(s, f).None?
  {
    if Search(f, s, 0, []).Some? {
      SearchLiterals(f, s, 0, []);
    }
  }

  /** A date without a slash can only be read as year-month-day. */
  lemma ParseDateNoSlash(s: string)
    requires '/' !in s
    ensures ParseDate(s) == match Strptime(s, DateFormats[4])
                            case None => None
                            case Some(dt) => Some(dt.0)
  {
    forall j | 0 <= j < 4
      ensures Strptime(s, DateFormats[j]).None?
    {
      assert DateFormats[j][1] == Literal('/');
      StrptimeMissing(s, DateFormats[j], 1);
    }
  }

  /** A date without a dash is never read as year-month-day. */
  lemma ParseDateNoDash(s: string)
    requires '-' !in s
    ensures ParseDate(s) == match FirstParse(s, DateFormats[..4])
                            case None => None
                            case Some(dt) => Some(dt.0)
  {
    assert DateFormats[4][1] == Literal('-');
    StrptimeMissing(s, DateFormats[4], 1);
    FirstParseDropLast(s, DateFormats);
  }

  /** A last format that fails changes nothing. */
  lemma {:induction false} FirstParseDropLast(s: string, fs: seq<Format>)
    requires |fs| > 0 && Strptime(s, fs[|fs| - 1]).None?
    ensures FirstParse(s, fs) == FirstParse(s, fs[..|fs| - 1])
  {
    if |fs| > 1 {
      var init := fs[..|fs| - 1];
      assert fs[1..][|fs[1..]| - 1] == fs[|fs| - 1];
      FirstParseDropLast(s, fs[1..]);
      assert fs[1..][..|fs[1..]| - 1] == init[1..];
      assert init[0] == fs[0];
    }
  }

  // ---------------------------------------------------------------------
  // Characters a format can consume.

  /** Some position of some alternative of `d` accepts `c`. */
  predicate FieldAccepts(d: Directive, c: char) {
    exists j, k :: 0 <= j < |Alternatives(d)| && 0 <= k < |Alternatives(d)[j]| && Accepts(Alternatives(d)[j][k], c)
  }

  /** The item can consume the character `c`. */
  predicate ItemAccepts(it: Item, c: char) {
    match it
    case Field(d) => FieldAccepts(d, c)
    case Literal(x) => x == c
    case Blank => IsSpace(c)
  }

  /** Some item of `f` can consume `c`. */
  predicate Covers(f: Format, c: char) {
    exists k :: 0 <= k < |f| && ItemAccepts(f[k], c)
  }

  lemma CoversHead(f: Format, c: char)
    requires |f| > 0 && ItemAccepts(f[0], c)
    ensures Covers(f, c)
  {
  }

  lemma CoversTail(f: Format, c: char)
    requires |f| > 0 && Covers(f[1..], c)
    ensures Covers(f, c)
  {
    var k :| 0 <= k < |f[1..]| && ItemAccepts(f[1..][k], c);
    assert f[k + 1] == f[1..][k];
  }

  /** A match of `f` consumes only characters some item of `f` accepts. */
  lemma {:induction false} SearchCovered(f: Format, s: string, i: nat, caps: seq<Capture>)
    requires i <= |s| && Search(f, s, i, caps).Some?
    ensures forall p :: i <= p < Search(f, s, i, caps).value.end ==> Covers(f, s[p])
    decreases |f|, 0, 0
  {
    var e := Search(f, s, i, caps).value.end;
    if |f| > 0 {
      match f[0]
      case Literal(c) =>
        SearchCovered(f[1..], s, i + 1, caps);
        forall p | i <= p < e
          ensures Covers(f, s[p])
        {
          if p == i {
            CoversHead(f, s[p]);
          } else {
            CoversTail(f, s[p]);
          }
        }
      case Blank =>
        TryBlankCovered(f[1..], s, i, caps, BlankRun(s, i));
        forall p | i <= p < e
          ensures Covers(f, s[p])
        {
          if IsSpace(s[p]) {
            CoversHead(f, s[p]);
          } else {
            CoversTail(f, s[p]);
          }
        }
      case Field(d) =>
        TryAltsCovered(d, f[1..], s, i, caps, 0);
        forall p | i <= p < e
          ensures Covers(f, s[p])
        {
          if FieldAccepts(d, s[p]) {
            CoversHead(f, s[p]);
          } else {
            CoversTail(f, s[p]);
          }
        }
    }
  }

  lemma {:induction false} TryBlankCovered(rest: Format, s: string, i: nat, caps: seq<Capture>, n: nat)
    requires i + n <= |s| && SpaceBetween(s, i, i + n) && TryBlank(rest, s, i, caps, n).Some?
    ensures forall p :: i <= p < TryBlank(rest, s, i, caps, n).value.end ==> IsSpace(s[p]) || Covers(rest, s[p])
    decreases |rest|, 1, n
  {
    if Search(rest, s, i + n, caps).Some? {
      SearchCovered(rest, s, i + n, caps);
    } else {
      TryBlankCovered(rest, s, i, caps, n - 1);
    }
  }

  lemma {:induction false} TryAltsCovered(d: Directive, rest: Format, s: string, i: nat, caps: seq<Capture>, k: nat)
    requires i <= |s| && TryAlts(d, rest, s, i, caps, k).Some?
    ensures forall p :: i <= p < TryAlts(d, rest, s, i, caps, k).value.end ==> FieldAccepts(d, s[p]) || Covers(rest, s[p])
    decreases |rest|, 1, |Alternatives(d)| - k
  {
    var alts := Alternatives(d);
    var e := TryAlts(d, rest, s, i, caps, k).value.end;
    if Fits(alts[k], s, i) {
      var n := |alts[k]|;
      var c := caps + [Capture(d, s[i..i + n])];
      if Search(rest, s, i + n, c).Some? {
        SearchCovered(rest, s, i + n, c);
        forall p | i <= p < i + n
          ensures FieldAccepts(d, s[p])
        {
          assert Accepts(alts[k][p - i], s[i + (p - i)]);
        }
      } else {
        TryAltsCovered(d, rest, s, i, caps, k + 1);
      }
    } else {
      TryAltsCovered(d, rest, s, i, caps, k + 1);
    }
  }

  /** A format fails on text holding a character that none of its items
      can consume: the match would have to stop before it. */
  lemma StrptimeForeign(s: string, f: Format, k: nat)
    requires k < |s| && !Covers(f, s[k])
    ensures Strptime(s, f).None?
  {
    if Search(f, s, 0, []).Some? {
      SearchCovered(f, s, 0, []);
    }
  }

  /** The 24-hour formats without `%p` consume only digits and colons. */
  lemma NoLetterIn24Hour(c: char)
    requires c == 'M'
    ensures !Covers(TimeFormats[0], c) && !Covers(TimeFormats[1], c)
  {
    assert !FieldAccepts(Hour24, c) && !FieldAccepts(Minute, c) && !FieldAccepts(Second, c);
  }

  // ---------------------------------------------------------------------
  // Groups that fail, and groups that take a known text.

  /** `f` does not match at `i`, whatever the earlier groups captured. */
  ghost predicate FailsAt(f: Format, s: string, i: nat)
    requires i <= |s|
  {
    forall caps :: Search(f, s, i, caps).None?
  }

  /** A literal that is not there fails. */
  lemma LiteralFails(f: Format, s: string, i: nat)
    requires i <= |s| && |f| > 0 && f[0].Literal? && !(i < |s| && s[i] == f[0].c)
    ensures FailsAt(f, s, i)
  {
  }

  /** A literal that is there passes the failure of the rest on. */
  lemma LiteralThenFails(f: Format, s: string, i: nat)
    requires i < |s| && |f| > 0 && f[0].Literal? && s[i] == f[0].c && FailsAt(f[1..], s, i + 1)
    ensures FailsAt(f, s, i)
  {
  }

  /** Every alternative of `d` is one or two characters long. */
  predicate ShortAlts(d: Directive) {
    forall j :: 0 <= j < |Alternatives(d)| ==> 1 <= |Alternatives(d)[j]| <= 2
  }

  /** A group of one or two characters fails when the rest fails after
      either length. */
  lemma ShortFieldFails(d: Directive, f: Format, s: string, i: nat)
    requires i + 2 <= |s| && |f| > 0 && f[0] == Field(d) && ShortAlts(d)
    requires FailsAt(f[1..], s, i + 1) && FailsAt(f[1..], s, i + 2)
    ensures FailsAt(f, s, i)
  {
    var alts := Alternatives(d);
    forall caps
      ensures Search(f, s, i, caps).None?
    {
      forall j | 0 <= j < |alts| && Fits(alts[j], s, i)
        ensures Search(f[1..], s, i + |alts[j]|, caps + [Capture(d, s[i..i + |alts[j]|])]).None?
      {
        var c := caps + [Capture(d, s[i..i + |alts[j]|])];
        if |alts[j]| == 1 {
          assert Search(f[1..], s, i + 1, c).None?;
        } else {
          assert Search(f[1..], s, i + 2, c).None?;
        }
      }
      TryAltsNone(d, f[1..], s, i, caps, 0);
    }
  }

  /** A group none of whose alternatives fit fails. */
  lemma NoFitFails(d: Directive, f: Format, s: string, i: nat)
    requires i <= |s| && |f| > 0 && f[0] == Field(d)
    requires forall j :: 0 <= j < |Alternatives(d)| ==> !Fits(Alternatives(d)[j], s, i)
    ensures FailsAt(f, s, i)
  {
    forall caps
      ensures Search(f, s, i, caps).None?
    {
      TryAltsNone(d, f[1..], s, i, caps, 0);
    }
  }

  /** A month group meeting a number from 13 on can take only its first
      digit, and then the slash after it is missing. */
  lemma MonthTooBig(f: Format, s: string, i: nat, n: nat)
    requires i + 2 <= |s| && 13 <= n <= 99 && s[i..i + 2] == TwoDigits(n)
    requires |f| > 1 && f[0] == Field(Month) && f[1] == Literal('/')
    ensures FailsAt(f, s, i)
  {
    var x := TwoDigits(n);
    assert s[i] == x[0] && s[i + 1] == x[1];
    var alts := Alternatives(Month);
    assert !Fits(alts[0], s, i) by {
      if s[i] == '1' {
        assert !Accepts(alts[0][1], s[i + 1]);
      } else {
        FirstRejected(alts[0], s, i);
      }
    }
    FirstRejected(alts[1], s, i);
    LiteralFails(f[1..], s, i + 1);
    forall caps
      ensures Search(f, s, i, caps).None?
    {
      assert Search(f[1..], s, i + 1, caps + [Capture(Month, s[i..i + 1])]).None?;
      TryAltsNone(Month, f[1..], s, i, caps, 0);
    }
  }

  /** A twelve-hour group meeting an hour from 13 on can take only its
      first digit, and then the colon after it is missing. */
  lemma Hour12TooBig(f: Format, s: string, n: nat)
    requires 2 <= |s| && 13 <= n <= 99 && s[..2] == TwoDigits(n)
    requires |f| > 1 && f[0] == Field(Hour12) && f[1] == Literal(':')
    ensures FailsAt(f, s, 0)
  {
    var x := TwoDigits(n);
    assert s[0] == x[0] && s[1] == x[1];
    var alts := Alternatives(Hour12);
    assert !Fits(alts[0], s, 0) by {
      if s[0] == '1' {
        assert !Accepts(alts[0][1], s[1]);
      } else {
        FirstRejected(alts[0], s, 0);
      }
    }
    FirstRejected(alts[1], s, 0);
    FirstRejected(alts[3], s, 0);
    LiteralFails(f[1..], s, 1);
    forall caps
      ensures Search(f, s, 0, caps).None?
    {
      assert Search(f[1..], s, 1, caps + [Capture(Hour12, s[0..1])]).None?;
      TryAltsNone(Hour12, f[1..], s, 0, caps, 0);
    }
  }

  /** The directives that read a two-digit number, and the numbers each
      accepts when written with two digits. */
  predicate TwoDigitRange(d: Directive, n: nat) {
    match d
    case Day => 1 <= n <= 31
    case Month => 1 <= n <= 12
    case Year2 => n <= 99
    case Hour24 => n <= 23
    case Hour12 => 1 <= n <= 12
    case Minute => n <= 59
    case _ => false
  }

  lemma Year2Pick(rest: Format, s: string, i: nat, caps: seq<Capture>, n: nat)
    requires i + 2 <= |s| && n <= 99 && s[i..i + 2] == TwoDigits(n)
    requires Search(rest, s, i + 2, caps + [Capture(Year2, TwoDigits(n))]).Some?
    ensures TryAlts(Year2, rest, s, i, caps, 0) == Search(rest, s, i + 2, caps + [Capture(Year2, TwoDigits(n))])
  {
    var x := TwoDigits(n);
    assert s[i] == x[0] && s[i + 1] == x[1];
    FitsPair(Alternatives(Year2)[0], s, i);
    TryAltsPick(Year2, rest, s, i, caps, 0);
  }

  lemma Hour12Pick(rest: Format, s: string, i: nat, caps: seq<Capture>, n: nat)
    requires i + 2 <= |s| && 1 <= n <= 12 && s[i..i + 2] == TwoDigits(n)
    requires Search(rest, s, i + 2, caps + [Capture(Hour12, TwoDigits(n))]).Some?
    ensures TryAlts(Hour12, rest, s, i, caps, 0) == Search(rest, s, i + 2, caps + [Capture(Hour12, TwoDigits(n))])
  {
    var x := TwoDigits(n);
    assert s[i] == x[0] && s[i + 1] == x[1];
    if n >= 10 {
      FitsPair(Alternatives(Hour12)[0], s, i);
      TryAltsPick(Hour12, rest, s, i, caps, 0);
    } else {
      FirstRejected(Alternatives(Hour12)[0], s, i);
      FitsPair(Alternatives(Hour12)[1], s, i);
      TryAltsPick(Hour12, rest, s, i, caps, 1);
    }
  }

  /** A two-digit number in range is taken whole by its group. */
  lemma TwoDigitPick(d: Directive, rest: Format, s: string, i: nat, caps: seq<Capture>, n: nat)
    requires i + 2 <= |s| && TwoDigitRange(d, n) && s[i..i + 2] == TwoDigits(n)
    requires Search(rest, s, i + 2, caps + [Capture(d, TwoDigits(n))]).Some?
    ensures Search([Field(d)] + rest, s, i, caps) == Search(rest, s, i + 2, caps + [Capture(d, TwoDigits(n))])
  {
    assert ([Field(d)] + rest)[0] == Field(d) && ([Field(d)] + rest)[1..] == rest;
    if d == Day {
      DayPick(rest, s, i, caps, n);
    } else if d == Month {
      MonthPick(rest, s, i, caps, n);
    } else if d == Year2 {
      Year2Pick(rest, s, i, caps, n);
    } else if d == Hour24 {
      Hour24Pick(rest, s, i, caps, n);
    } else if d == Hour12 {
      Hour12Pick(rest, s, i, caps, n);
    } else if d == Minute {
      MinutePick(rest, s, i, caps, n);
    }
  }

  /** A single digit before a colon is taken alone by `%I` (1 to 9) and
      by `%H`. */
  lemma OneDigitPick(d: Directive, rest: Format, s: string, i: nat, caps: seq<Capture>, n: nat)
    requires i + 2 <= |s| && n <= 9 && s[i] == DigitChar(n) && s[i + 1] == ':'
    requires (d == Hour12 && 1 <= n) || d == Hour24
    requires Search(rest, s, i + 1, caps + [Capture(d, [DigitChar(n)])]).Some?
    ensures Search([Field(d)] + rest, s, i, caps) == Search(rest, s, i + 1, caps + [Capture(d, [DigitChar(n)])])
  {
    assert ([Field(d)] + rest)[0] == Field(d) && ([Field(d)] + rest)[1..] == rest;
    OneDigitAlts(d, rest, s, i, caps, n);
  }

  /** The two-character alternatives of `%I` and `%H` refuse the colon, so
      the third, a single digit, is the one taken. */
  lemma OneDigitAlts(d: Directive, rest: Format, s: string, i: nat, caps: seq<Capture>, n: nat)
    requires i + 2 <= |s| && n <= 9 && s[i] == DigitChar(n) && s[i + 1] == ':'
    requires (d == Hour12 && 1 <= n) || d == Hour24
    requires Search(rest, s, i + 1, caps + [Capture(d, [DigitChar(n)])]).Some?
    ensures TryAlts(d, rest, s, i, caps, 0) == Search(rest, s, i + 1, caps + [Capture(d, [DigitChar(n)])])
  {
    assert s[i..i + 1] == [DigitChar(n)];
    var alts := Alternatives(d);
    SecondRejected(alts[0], s, i, ':');
    SecondRejected(alts[1], s, i, ':');
    FitsSingle(alts[2], s, i);
    TryAltsPick(d, rest, s, i, caps, 2);
  }

  /** An alternative whose second atom refuses the character after `i`
      does not fit. */
  lemma SecondRejected(alt: seq<Atom>, s: string, i: nat, c: char)
    requires i + 1 < |s| && |alt| > 1 && s[i + 1] == c && !IsDigit(c)
    requires alt[1] == AnyDigit || (alt[1].Among? && c !in alt[1].cs)
    ensures !Fits(alt, s, i)
  {
    assert !Accepts(alt[1], s[i + 1]);
  }

  /** The marker of `%p` in capitals. */
  function Marker(pm: bool): string {
    if pm then "PM" else "AM"
  }

  /** `AM` and `PM` are taken by `%p`. */
  lemma AmPmPick(rest: Format, s: string, i: nat, caps: seq<Capture>, pm: bool)
    requires i + 2 <= |s| && s[i..i + 2] == Marker(pm)
    requires Search(rest, s, i + 2, caps + [Capture(AmPm, Marker(pm))]).Some?
    ensures Search([Field(AmPm)] + rest, s, i, caps) == Search(rest, s, i + 2, caps + [Capture(AmPm, Marker(pm))])
  {
    assert ([Field(AmPm)] + rest)[0] == Field(AmPm) && ([Field(AmPm)] + rest)[1..] == rest;
    var x := Marker(pm);
    assert s[i] == x[0] && s[i + 1] == x[1];
    if pm {
      FirstRejected(Alternatives(AmPm)[0], s, i);
      TryAltsPick(AmPm, rest, s, i, caps, 1);
    } else {
      TryAltsPick(AmPm, rest, s, i, caps, 0);
    }
  }

  /** A literal that is there is stepped over. */
  lemma LiteralStep(f: Format, s: string, i: nat, caps: seq<Capture>, r: Option<Found>)
    requires i < |s| && |f| > 0 && f[0] == Literal(s[i]) && Search(f[1..], s, i + 1, caps) == r
    ensures Search(f, s, i, caps) == r
  {
  }

  /** A single blank before a character that is not one is stepped over. */
  lemma BlankStep(f: Format, s: string, i: nat, caps: seq<Capture>, r: Option<Found>)
    requires i + 1 < |s| && |f| > 0 && f[0] == Blank && IsSpace(s[i]) && !IsSpace(s[i + 1])
    requires Search(f[1..], s, i + 1, caps) == r && r.Some?
    ensures Search(f, s, i, caps) == r
  {
    assert BlankRun(s, i) == 1;
  }

  // ---------------------------------------------------------------------
  // Dates with a two-digit year.

  /** `aa/bb/cc`, three numbers written with two digits each. */
  function Slashed(a: nat, b: nat, c: nat): (x: string)
    requires a <= 99 && b <= 99 && c <= 99
    ensures |x| == 8
  {
    TwoDigits(a) + "/" + TwoDigits(b) + "/" + TwoDigits(c)
  }

  /** Where the parts of `aa/bb/cc` sit. */
  lemma SlashedShape(a: nat, b: nat, c: nat)
    requires a <= 99 && b <= 99 && c <= 99
    ensures var s := Slashed(a, b, c);
            s[0..2] == TwoDigits(a) && s[2] == '/' && s[3..5] == TwoDigits(b) && s[5] == '/' && s[6..8] == TwoDigits(c)
  {
  }

  /** A slash and a two-digit group in range are stepped over together. */
  lemma SlashFieldStep(d: Directive, rest: Format, s: string, i: nat, caps: seq<Capture>, n: nat)
    requires n <= 99 && TwoDigitRange(d, n) && i + 3 <= |s| && s[i] == '/' && s[i + 1..i + 3] == TwoDigits(n)
    requires Search(rest, s, i + 3, caps + [Capture(d, TwoDigits(n))]).Some?
    ensures Search([Literal('/'), Field(d)] + rest, s, i, caps) == Search(rest, s, i + 3, caps + [Capture(d, TwoDigits(n))])
  {
    var f := [Literal('/'), Field(d)] + rest;
    TwoDigitPick(d, rest, s, i + 1, caps, n);
    assert f[1..] == [Field(d)] + rest;
    LiteralStep(f, s, i, caps, Search(rest, s, i + 3, caps + [Capture(d, TwoDigits(n))]));
  }

  /** Three two-digit groups separated by slashes take the first eight
      characters of any text that starts `aa/bb/cc`. */
  lemma SlashedFieldsSearch(d1: Directive, d2: Directive, d3: Directive, s: string, a: nat, b: nat, c: nat)
    requires TwoDigitRange(d1, a) && TwoDigitRange(d2, b) && TwoDigitRange(d3, c)
    requires a <= 99 && b <= 99 && c <= 99 && 8 <= |s|
    requires s[0..2] == TwoDigits(a) && s[2] == '/' && s[3..5] == TwoDigits(b) && s[5] == '/' && s[6..8] == TwoDigits(c)
    ensures Search([Field(d1), Literal('/'), Field(d2), Literal('/'), Field(d3)], s, 0, [])
         == Some(Found(8, [Capture(d1, TwoDigits(a)), Capture(d2, TwoDigits(b)), Capture(d3, TwoDigits(c))]))
  {
    var f := [Field(d1), Literal('/'), Field(d2), Literal('/'), Field(d3)];
    var none: seq<Capture> := [];
    var c1 := none + [Capture(d1, TwoDigits(a))];
    var c2 := c1 + [Capture(d2, TwoDigits(b))];
    var c3 := c2 + [Capture(d3, TwoDigits(c))];
    var r := Some(Found(8, c3));
    assert Search(f[3..], s, 5, c2) == r by {
      var tail: Format := [];
      assert Search(tail, s, 8, c3) == r;
      SlashFieldStep(d3, tail, s, 5, c2, c);
      assert f[3..] == [Literal('/'), Field(d3)] + tail;
    }
    assert Search(f[1..], s, 2, c1) == r by {
      SlashFieldStep(d2, f[3..], s, 2, c1, b);
      assert f[1..] == [Literal('/'), Field(d2)] + f[3..];
    }
    assert Search(f, s, 0, none) == r by {
      TwoDigitPick(d1, f[1..], s, 0, none, a);
      assert [Field(d1)] + f[1..] == f;
    }
    assert c3 == [Capture(d1, TwoDigits(a)), Capture(d2, TwoDigits(b)), Capture(d3, TwoDigits(c))];
  }

  /** The same for `aa/bb/cc` itself. */
  lemma SlashedSearch(d1: Directive, d2: Directive, d3: Directive, a: nat, b: nat, c: nat)
    requires TwoDigitRange(d1, a) && TwoDigitRange(d2, b) && TwoDigitRange(d3, c)
    requires a <= 99 && b <= 99 && c <= 99
    ensures Search([Field(d1), Literal('/'), Field(d2), Literal('/'), Field(d3)], Slashed(a, b, c), 0, [])
         == Some(Found(8, [Capture(d1, TwoDigits(a)), Capture(d2, TwoDigits(b)), Capture(d3, TwoDigits(c))]))
  {
    SlashedShape(a, b, c);
    SlashedFieldsSearch(d1, d2, d3, Slashed(a, b, c), a, b, c);
  }

  /** A four-digit year has no room after `aa/bb/` in eight characters. */
  lemma Year4TooShort(d1: Directive, d2: Directive, a: nat, b: nat, c: nat)
    requires a <= 99 && b <= 99 && c <= 99 && ShortAlts(d1) && ShortAlts(d2)
    ensures Strptime(Slashed(a, b, c), [Field(d1), Literal('/'), Field(d2), Literal('/'), Field(Year4)]).None?
  {
    var s := Slashed(a, b, c);
    var f := [Field(d1), Literal('/'), Field(d2), Literal('/'), Field(Year4)];
    assert s[1] == TwoDigits(a)[1] && s[2] == '/' && s[4] == TwoDigits(b)[1] && s[5] == '/';
    NoFitFails(Year4, f[4..], s, 6);
    assert f[3..][1..] == f[4..];
    LiteralThenFails(f[3..], s, 5);
    LiteralFails(f[3..], s, 4);
    assert f[2..][1..] == f[3..];
    ShortFieldFails(d2, f[2..], s, 3);
    assert f[1..][1..] == f[2..];
    LiteralThenFails(f[1..], s, 2);
    LiteralFails(f[1..], s, 1);
    ShortFieldFails(d1, f, s, 0);
    assert Search(f, s, 0, []).None?;
  }

  /** The captures of a day, a month (in either order) and a two-digit year
      name that date at midnight. */
  lemma ShortYearFields(d1: Directive, d2: Directive, a: string, b: string, c: string)
    requires (d1 == Day && d2 == Month) || (d1 == Month && d2 == Day)
    ensures var caps := [Capture(d1, a), Capture(d2, b), Capture(Year2, c)];
            DateOf(caps) == Date(Century(Number(c)), Number(if d1 == Month then a else b), Number(if d1 == Day then a else b))
            && TimeOf(caps) == Time(0, 0, 0)
  {
    var caps := [Capture(d1, a), Capture(d2, b), Capture(Year2, c)];
    LookupThree(d1, d2, Year2, a, b, c);
    assert Lookup(caps, Year4) == None;
    MidnightByDefault(caps);
  }

  /** `strptime` with a two-digit year: the date the fields name when it
      exists, and `None` otherwise. */
  lemma StrptimeShortYear(d1: Directive, d2: Directive, a: nat, b: nat, yy: nat)
    requires (d1 == Day && d2 == Month) || (d1 == Month && d2 == Day)
    requires TwoDigitRange(d1, a) && TwoDigitRange(d2, b) && yy <= 99
    ensures var date := if d1 == Day then Date(Century(yy), b, a) else Date(Century(yy), a, b);
            Strptime(Slashed(a, b, yy), [Field(d1), Literal('/'), Field(d2), Literal('/'), Field(Year2)])
            == if ValidDate(date) then Some((date, Time(0, 0, 0))) else None
  {
    SlashedSearch(d1, d2, Year2, a, b, yy);
    NumberTwoDigits(a);
    NumberTwoDigits(b);
    NumberTwoDigits(yy);
    ShortYearFields(d1, d2, TwoDigits(a), TwoDigits(b), TwoDigits(yy));
  }

  /** The first format that parses decides: the formats before it are
      passed over. */
  lemma FirstParseAt(s: string, fs: seq<Format>, k: nat)
    requires k < |fs| && Strptime(s, fs[k]).Some?
    requires forall j :: 0 <= j < k ==> Strptime(s, fs[j]).None?
    ensures FirstParse(s, fs) == Strptime(s, fs[k])
  {
    var r := FirstParse(s, fs);
    assert r.Some?;
    var k' :| 0 <= k' < |fs| && Strptime(s, fs[k']) == r
              && forall j :: 0 <= j < k' ==> Strptime(s, fs[j]).None?;
    assert k' == k;
  }

  /** A format that fails is passed over. */
  lemma FirstParseSkip(s: string, fs: seq<Format>)
    requires |fs| > 0 && Strptime(s, fs[0]).None?
    ensures FirstParse(s, fs) == FirstParse(s, fs[1..])
  {
  }

  /** A format that parses is taken. */
  lemma FirstParseHit(s: string, fs: seq<Format>)
    requires |fs| > 0 && Strptime(s, fs[0]).Some?
    ensures FirstParse(s, fs) == Strptime(s, fs[0])
  {
  }

  /** `%y` read back: the last two digits of a year from 1969 to 2068 name
      that year again. */
  lemma CenturyLastTwo(y: int)
    requires 1969 <= y <= 2068
    ensures 0 <= y % 100 <= 99 && Century(y % 100) == y
  {
    if y < 2000 {
      assert y % 100 == y - 1900;
    } else {
      assert y % 100 == y - 2000;
    }
  }

  // ---------------------------------------------------------------------
  // Dates written day first with a two-digit year, the day and the month
  // padded or not.

  /** `d/m/yy` */
  function ShortDate(day: nat, month: nat, yy: nat, pad: bool): (x: string)
    requires day <= 99 && month <= 99 && yy <= 99
    ensures |x| == |Written(day, pad)| + |Written(month, pad)| + 4
  {
    Written(day, pad) + "/" + Written(month, pad) + "/" + TwoDigits(yy)
  }

  /** Where the parts of `d/m/yy` sit. */
  lemma ShortDateShape(day: nat, month: nat, yy: nat, pad: bool)
    requires day <= 99 && month <= 99 && yy <= 99
    ensures var s := ShortDate(day, month, yy, pad);
            var p, q := |Written(day, pad)|, |Written(month, pad)|;
            s[..p] == Written(day, pad) && s[p] == '/' && s[p + 1..p + 1 + q] == Written(month, pad)
            && s[p + 1 + q] == '/' && s[p + q + 2..] == TwoDigits(yy)
  {
    var x := Written(day, pad);
    var y := Written(month, pad);
    var p, q := |x|, |y|;
    var s0 := x + "/";
    var s1 := s0 + y;
    var s2 := s1 + "/";
    var s := s2 + TwoDigits(yy);
    assert s[..p] == x;
    assert s[p] == s0[p] == '/';
    assert s[p + 1..p + 1 + q] == s1[p + 1..] == y;
    assert s[p + 1 + q] == s2[p + 1 + q] == '/';
    assert s[p + q + 2..] == TwoDigits(yy);
  }

  /** A single digit before a slash is taken alone by `%d` and `%m`: their
      two-character alternatives refuse the slash. */
  lemma SlashDigitAlts(d: Directive, rest: Format, s: string, i: nat, caps: seq<Capture>, n: nat)
    requires i + 2 <= |s| && 1 <= n <= 9 && s[i] == DigitChar(n) && s[i + 1] == '/'
    requires d == Day || d == Month
    requires Search(rest, s, i + 1, caps + [Capture(d, [DigitChar(n)])]).Some?
    ensures TryAlts(d, rest, s, i, caps, 0) == Search(rest, s, i + 1, caps + [Capture(d, [DigitChar(n)])])
  {
    assert s[i..i + 1] == [DigitChar(n)];
    var alts := Alternatives(d);
    SecondRejected(alts[0], s, i, '/');
    SecondRejected(alts[1], s, i, '/');
    if d == Day {
      SecondRejected(alts[2], s, i, '/');
      FitsSingle(alts[3], s, i);
      TryAltsPick(d, rest, s, i, caps, 3);
    } else {
      FitsSingle(alts[2], s, i);
      TryAltsPick(d, rest, s, i, caps, 2);
    }
  }

  /** A day or a month as written, followed by a slash, is taken whole by
      its group. */
  lemma WrittenPick(d: Directive, rest: Format, s: string, i: nat, caps: seq<Capture>, n: nat, pad: bool)
    requires (d == Day || d == Month) && n <= 99 && TwoDigitRange(d, n)
    requires var x := Written(n, pad); i + |x| < |s| && s[i..i + |x|] == x && s[i + |x|] == '/'
    requires Search(rest, s, i + |Written(n, pad)|, caps + [Capture(d, Written(n, pad))]).Some?
    ensures Search([Field(d)] + rest, s, i, caps)
         == Search(rest, s, i + |Written(n, pad)|, caps + [Capture(d, Written(n, pad))])
  {
    if pad || n >= 10 {
      TwoDigitPick(d, rest, s, i, caps, n);
    } else {
      assert s[i] == s[i..i + 1][0] == DigitChar(n);
      assert ([Field(d)] + rest)[0] == Field(d) && ([Field(d)] + rest)[1..] == rest;
      SlashDigitAlts(d, rest, s, i, caps, n);
    }
  }

  /** A slash and a day or month as written are stepped over together. */
  lemma SlashWrittenStep(d: Directive, rest: Format, s: string, i: nat, caps: seq<Capture>, n: nat, pad: bool)
    requires (d == Day || d == Month) && n <= 99 && TwoDigitRange(d, n)
    requires var x := Written(n, pad); i + 1 + |x| < |s| && s[i] == '/' && s[i + 1..i + 1 + |x|] == x && s[i + 1 + |x|] == '/'
    requires Search(rest, s, i + 1 + |Written(n, pad)|, caps + [Capture(d, Written(n, pad))]).Some?
    ensures Search([Literal('/'), Field(d)] + rest, s, i, caps)
         == Search(rest, s, i + 1 + |Written(n, pad)|, caps + [Capture(d, Written(n, pad))])
  {
    var f := [Literal('/'), Field(d)] + rest;
    WrittenPick(d, rest, s, i + 1, caps, n, pad);
    assert f[1..] == [Field(d)] + rest;
    LiteralStep(f, s, i, caps, Search(rest, s, i + 1 + |Written(n, pad)|, caps + [Capture(d, Written(n, pad))]));
  }

  /** A slash and a two-digit year end the text. */
  lemma YearTail(s: string, i: nat, caps: seq<Capture>, c: nat)
    requires c <= 99 && i + 3 == |s| && s[i] == '/' && s[i + 1..] == TwoDigits(c)
    ensures Search([Literal('/'), Field(Year2)], s, i, caps) == Some(Found(|s|, caps + [Capture(Year2, TwoDigits(c))]))
  {
    var tail: Format := [];
    assert Search(tail, s, |s|, caps + [Capture(Year2, TwoDigits(c))]) == Some(Found(|s|, caps + [Capture(Year2, TwoDigits(c))]));
    assert s[i + 1..i + 3] == TwoDigits(c);
    SlashFieldStep(Year2, tail, s, i, caps, c);
    assert [Literal('/'), Field(Year2)] == [Literal('/'), Field(Year2)] + tail;
  }

  /** A slash, a month as written, a slash and a two-digit year end the
      text. */
  lemma MonthYearTail(s: string, i: nat, caps: seq<Capture>, b: nat, c: nat, pad: bool)
    requires 1 <= b <= 12 && c <= 99
    requires var y := Written(b, pad);
             i + |y| + 4 == |s| && s[i] == '/' && s[i + 1..i + 1 + |y|] == y
             && s[i + 1 + |y|] == '/' && s[i + |y| + 2..] == TwoDigits(c)
    ensures Search([Literal('/'), Field(Month), Literal('/'), Field(Year2)], s, i, caps)
         == Some(Found(|s|, caps + [Capture(Month, Written(b, pad))] + [Capture(Year2, TwoDigits(c))]))
  {
    var q := |Written(b, pad)|;
    var tail := [Literal('/'), Field(Year2)];
    YearTail(s, i + 1 + q, caps + [Capture(Month, Written(b, pad))], c);
    SlashWrittenStep(Month, tail, s, i, caps, b, pad);
    assert [Literal('/'), Field(Month), Literal('/'), Field(Year2)] == [Literal('/'), Field(Month)] + tail;
  }

  /** `%d/%m/%y` takes any text laid out as `d/m/yy`. */
  lemma ShortDateFieldsSearch(s: string, a: nat, b: nat, c: nat, pad: bool)
    requires 1 <= a <= 31 && 1 <= b <= 12 && c <= 99
    requires var p, q := |Written(a, pad)|, |Written(b, pad)|;
             |s| == p + q + 4 && s[..p] == Written(a, pad) && s[p] == '/' && s[p + 1..p + 1 + q] == Written(b, pad)
             && s[p + 1 + q] == '/' && s[p + q + 2..] == TwoDigits(c)
    ensures Search(DateFormats[1], s, 0, [])
         == Some(Found(|s|, [Capture(Day, Written(a, pad)), Capture(Month, Written(b, pad)), Capture(Year2, TwoDigits(c))]))
  {
    var p := |Written(a, pad)|;
    var none: seq<Capture> := [];
    var c1 := none + [Capture(Day, Written(a, pad))];
    var caps := c1 + [Capture(Month, Written(b, pad))] + [Capture(Year2, TwoDigits(c))];
    var rest := [Literal('/'), Field(Month), Literal('/'), Field(Year2)];
    MonthYearTail(s, p, c1, b, c, pad);
    assert s[0..p] == s[..p];
    WrittenPick(Day, rest, s, 0, none, a, pad);
    assert Search([Field(Day)] + rest, s, 0, none) == Some(Found(|s|, caps));
    DayFirstShortFormat();
    assert caps == [Capture(Day, Written(a, pad)), Capture(Month, Written(b, pad)), Capture(Year2, TwoDigits(c))];
  }

  lemma DayFirstShortFormat()
    ensures DateFormats[1] == [Field(Day)] + [Literal('/'), Field(Month), Literal('/'), Field(Year2)]
  {
  }

  /** `%d/%m/%Y` finds no room for a four-digit year in `d/m/yy`. */
  lemma ShortDateNoYear4(s: string, a: nat, b: nat, c: nat, pad: bool)
    requires 1 <= a <= 31 && 1 <= b <= 12 && c <= 99
    requires var p, q := |Written(a, pad)|, |Written(b, pad)|;
             |s| == p + q + 4 && s[..p] == Written(a, pad) && s[p] == '/' && s[p + 1..p + 1 + q] == Written(b, pad)
             && s[p + 1 + q] == '/' && s[p + q + 2..] == TwoDigits(c)
    ensures Strptime(s, DateFormats[0]).None?
  {
    var x, y := Written(a, pad), Written(b, pad);
    var p, q := |x|, |y|;
    var f := DateFormats[0];
    assert f == [Field(Day), Literal('/'), Field(Month), Literal('/'), Field(Year4)];
    assert s[p + q + 2] == TwoDigits(c)[0];
    assert s[p + 1] == y[0];
    if q == 2 {
      assert s[p + 2] == y[1];
    }
    if p == 2 {
      assert s[1] == x[1];
    }
    assert !Fits(Alternatives(Year4)[0], s, p + q + 2);
    NoFitFails(Year4, f[4..], s, p + q + 2);
    assert f[3..][1..] == f[4..];
    LiteralThenFails(f[3..], s, p + q + 1);
    LiteralFails(f[3..], s, if q == 1 then p + 3 else p + 2);
    assert f[2..][1..] == f[3..];
    ShortFieldFails(Month, f[2..], s, p + 1);
    assert f[1..][1..] == f[2..];
    LiteralThenFails(f[1..], s, p);
    LiteralFails(f[1..], s, if p == 1 then 2 else 1);
    ShortFieldFails(Day, f, s, 0);
    assert Search(f, s, 0, []).None?;
  }

  /** `strptime(s, '%d/%m/%y')` on `d/m/yy`: the date the fields name when
      it exists, and `None` otherwise. */
  lemma StrptimeShortDate(a: nat, b: nat, yy: nat, pad: bool)
    requires 1 <= a <= 31 && 1 <= b <= 12 && yy <= 99
    ensures var date := Date(Century(yy), b, a);
            Strptime(ShortDate(a, b, yy, pad), DateFormats[1])
            == if ValidDate(date) then Some((date, Time(0, 0, 0))) else None
  {
    ShortDateShape(a, b, yy, pad);
    ShortDateFieldsSearch(ShortDate(a, b, yy, pad), a, b, yy, pad);
    NumberWritten(a, pad);
    NumberWritten(b, pad);
    NumberTwoDigits(yy);
    ShortYearFields(Day, Month, Written(a, pad), Written(b, pad), TwoDigits(yy));
  }

  /** A date from 1969 to 2068 written day first with a two-digit year is
      read back as itself, whether or not the day and the month are padded
      to two digits. */
  lemma ParseDateShortYear(d: Date, pad: bool)
    requires ValidDate(d) && 1969 <= d.year <= 2068
    ensures ParseDate(ShortDate(d.day, d.month, d.year % 100, pad)) == Some(d)
  {
    CenturyLastTwo(d.year);
    var yy := d.year % 100;
    var s := ShortDate(d.day, d.month, yy, pad);
    var fs := DateFormats;
    ShortDateShape(d.day, d.month, yy, pad);
    assert Strptime(s, fs[0]).None? by {
      ShortDateNoYear4(s, d.day, d.month, yy, pad);
    }
    assert Strptime(s, fs[1..][0]) == Some((d, Time(0, 0, 0))) by {
      assert fs[1..][0] == fs[1];
      StrptimeShortDate(d.day, d.month, yy, pad);
    }
    FirstParseSkip(s, fs);
    FirstParseHit(s, fs[1..]);
  }

  lemma FirstOfFebruaryText()
    ensures ShortDate(1, 2, 24, false) == "1/2/24"
  {
  }

  /** `1/2/24`, day and month unpadded, is the first of February 2024. */
  lemma ParseDateFirstOfFebruary()
    ensures ParseDate("1/2/24") == Some(Date(2024, 2, 1))
  {
    var d := Date(2024, 2, 1);
    assert ValidDate(d) && d.year % 100 == 24;
    ParseDateShortYear(d, false);
    FirstOfFebruaryText();
  }

  /** Under `%d/%m/%y` a second number past 12 cannot be the month. */
  lemma DayFirstRefuses(a: nat, n: nat, yy: nat)
    requires a <= 99 && 13 <= n <= 99 && yy <= 99
    ensures Strptime(Slashed(a, n, yy), DateFormats[1]).None?
  {
    var s := Slashed(a, n, yy);
    var f := DateFormats[1];
    assert s[3..5] == TwoDigits(n);
    MonthTooBig(f[2..], s, 3, n);
    assert f[1..][1..] == f[2..];
    LiteralThenFails(f[1..], s, 2);
    assert s[1] == TwoDigits(a)[1];
    LiteralFails(f[1..], s, 1);
    ShortFieldFails(Day, f, s, 0);
    assert Search(f, s, 0, []).None?;
  }

  /** `mm/dd/yy` with a day past the twelfth is read by `%m/%d/%y` when the
      year it names is a date: under `%d/%m/%y` the day cannot be a month. */
  lemma ParseMonthFirst(mm: nat, dd: nat, yy: nat)
    requires 13 <= dd <= 31 && 1 <= mm <= 12 && yy <= 99 && ValidDate(Date(Century(yy), mm, dd))
    ensures ParseDate(Slashed(mm, dd, yy)) == Some(Date(Century(yy), mm, dd))
  {
    var s := Slashed(mm, dd, yy);
    var fs := DateFormats;
    assert Strptime(s, fs[0]).None? by {
      Year4TooShort(Day, Month, mm, dd, yy);
    }
    assert Strptime(s, fs[1..][0]).None? by {
      assert fs[1..][0] == fs[1];
      DayFirstRefuses(mm, dd, yy);
    }
    assert Strptime(s, fs[2..][0]) == Some((Date(Century(yy), mm, dd), Time(0, 0, 0))) by {
      assert fs[2..][0] == fs[2];
      StrptimeShortYear(Month, Day, mm, dd, yy);
    }
    FirstParseSkip(s, fs);
    FirstParseSkip(s, fs[1..]);
    assert fs[1..][1..] == fs[2..];
    FirstParseHit(s, fs[2..]);
  }

  /** A date written `mm/dd/yy` whose day is past the twelfth and whose year
      is from 1969 to 2068 is read back as itself. */
  lemma ParseDateMonthFirst(d: Date)
    requires ValidDate(d) && 13 <= d.day && 1969 <= d.year <= 2068
    ensures ParseDate(Slashed(d.month, d.day, d.year % 100)) == Some(d)
  {
    CenturyLastTwo(d.year);
    ParseMonthFirst(d.month, d.day, d.year % 100);
  }

  /** Under `%m/%d/...` a first number past 12 cannot be the month. */
  lemma MonthFirstRefuses(n: nat, b: nat, yy: nat)
    requires 13 <= n <= 99 && b <= 99 && yy <= 99
    ensures Strptime(Slashed(n, b, yy), DateFormats[2]).None?
    ensures Strptime(Slashed(n, b, yy), DateFormats[3]).None?
  {
    var s := Slashed(n, b, yy);
    assert s[..2] == s[0..2] == TwoDigits(n);
    MonthTooBig(DateFormats[2], s, 0, n);
    MonthTooBig(DateFormats[3], s, 0, n);
    assert Search(DateFormats[2], s, 0, []).None?;
    assert Search(DateFormats[3], s, 0, []).None?;
  }

  lemma SlashedNoDash(a: nat, b: nat, c: nat)
    requires a <= 99 && b <= 99 && c <= 99
    ensures '-' !in Slashed(a, b, c)
  {
    var s := Slashed(a, b, c);
    assert forall k :: 0 <= k < 8 ==> s[k] == '/' || IsDigit(s[k]);
  }

  /** Text written day first that names no real day is refused: the
      day-first format finds the fields but no date, and the month-first
      ones cannot take the day as a month. */
  lemma ParseDateNoSuchDay(dd: nat, mm: nat, yy: nat)
    requires 1 <= dd <= 31 && 1 <= mm <= 12 && yy <= 99 && !ValidDate(Date(Century(yy), mm, dd))
    ensures ParseDate(Slashed(dd, mm, yy)) == None
  {
    var s := Slashed(dd, mm, yy);
    assert 13 <= dd;
    Year4TooShort(Day, Month, dd, mm, yy);
    StrptimeShortYear(Day, Month, dd, mm, yy);
    MonthFirstRefuses(dd, mm, yy);
    SlashedNoDash(dd, mm, yy);
    ParseDateNoDash(s);
    var fs := DateFormats[..4];
    assert fs == [DateFormats[0], DateFormats[1], DateFormats[2], DateFormats[3]];
    assert forall k :: 0 <= k < 4 ==> Strptime(s, fs[k]).None?;
  }

  lemma ChristmasText()
    ensures Slashed(12, 25, 24) == "12/25/24"
  {
  }

  /** `12/25/24` is the 25th of December 2024, read month first. */
  lemma ParseDateChristmas()
    ensures ParseDate("12/25/24") == Some(Date(2024, 12, 25))
  {
    var d := Date(2024, 12, 25);
    assert ValidDate(d) && d.year % 100 == 24;
    ParseDateMonthFirst(d);
    ChristmasText();
  }

  lemma FebruaryText()
    ensures Slashed(31, 2, 24) == "31/02/24"
  {
  }

  /** `31/02/24` names no day and is refused. */
  lemma ParseDateThirtyFirstOfFebruary()
    ensures ParseDate("31/02/24") == None
  {
    assert !ValidDate(Date(2024, 2, 31));
    ParseDateNoSuchDay(31, 2, 24);
    FebruaryText();
  }

  // ---------------------------------------------------------------------
  // Dates with a four-digit year: month first, and year first.

  /** `mm/dd/yyyy` */
  function MonthDayYear(d: Date): (x: string)
    requires ValidDate(d)
    ensures |x| == 10
  {
    TwoDigits(d.month) + "/" + TwoDigits(d.day) + "/" + FourDigits(d.year)
  }

  /** `yyyy-mm-dd` */
  function YearMonthDay(d: Date): (x: string)
    requires ValidDate(d)
    ensures |x| == 10
  {
    FourDigits(d.year) + "-" + TwoDigits(d.month) + "-" + TwoDigits(d.day)
  }

  /** Under `%d/%m/...` a second number past 12 cannot be the month, whatever
      follows it. */
  lemma SecondNotMonth(f: Format, s: string, n: nat)
    requires |f| >= 4 && f[0] == Field(Day) && f[1] == Literal('/') && f[2] == Field(Month) && f[3] == Literal('/')
    requires 13 <= n <= 99 && 5 <= |s| && IsDigit(s[1]) && s[2] == '/' && s[3..5] == TwoDigits(n)
    ensures Search(f, s, 0, []).None?
  {
    MonthTooBig(f[2..], s, 3, n);
    assert f[1..][1..] == f[2..];
    LiteralThenFails(f[1..], s, 2);
    LiteralFails(f[1..], s, 1);
    ShortFieldFails(Day, f, s, 0);
  }

  lemma MonthFirstLongFormat()
    ensures DateFormats[3] == [Field(Month)] + [Literal('/'), Field(Day), Literal('/'), Field(Year4)]
  {
  }

  lemma YearFirstFormat()
    ensures DateFormats[4] == [Field(Year4)] + [Literal('-'), Field(Month), Literal('-'), Field(Day)]
  {
  }

  /** Where the parts of `mm/dd/yyyy` sit; its first two year digits read as
      a two-digit number. */
  lemma MonthDayYearShape(d: Date)
    requires ValidDate(d)
    ensures var s := MonthDayYear(d);
            s[0..2] == TwoDigits(d.month) && s[2] == '/' && s[3..5] == TwoDigits(d.day) && s[5] == '/'
            && s[6..10] == FourDigits(d.year) && s[6..8] == TwoDigits(d.year / 100)
  {
    TenthOfTenth(d.year);
  }

  lemma MonthDayYearSearch(d: Date)
    requires ValidDate(d)
    ensures Search(DateFormats[3], MonthDayYear(d), 0, [])
         == Some(Found(10, [Capture(Month, TwoDigits(d.month)), Capture(Day, TwoDigits(d.day)),
                            Capture(Year4, FourDigits(d.year))]))
  {
    var s := MonthDayYear(d);
    MonthDayYearShape(d);
    MonthFirstLongFormat();
    var rest: Format := [Literal('/'), Field(Day), Literal('/'), Field(Year4)];
    var none: seq<Capture> := [];
    var c1 := none + [Capture(Month, TwoDigits(d.month))];
    var c2 := c1 + [Capture(Day, TwoDigits(d.day))];
    var c3 := c2 + [Capture(Year4, FourDigits(d.year))];
    var r := Some(Found(10, c3));
    var tail: Format := [Literal('/'), Field(Year4)];
    assert Search(tail, s, 5, c2) == r by {
      var empty: Format := [];
      assert Search(empty, s, 10, c3) == r;
      Year4Pick(empty, s, 6, c2, d.year);
      assert tail[1..] == [Field(Year4)] && tail[1..][1..] == empty;
    }
    assert Search(rest, s, 2, c1) == r by {
      SlashFieldStep(Day, tail, s, 2, c1, d.day);
      assert rest == [Literal('/'), Field(Day)] + tail;
    }
    TwoDigitPick(Month, rest, s, 0, none, d.month);
    assert Search(DateFormats[3], s, 0, []) == r;
    assert c3 == [Capture(Month, TwoDigits(d.month)), Capture(Day, TwoDigits(d.day)), Capture(Year4, FourDigits(d.year))];
  }

  /** `%m/%d/%Y` reads `mm/dd/yyyy` back as the date written. */
  lemma StrptimeMonthDayYear(d: Date)
    requires ValidDate(d)
    ensures Strptime(MonthDayYear(d), DateFormats[3]) == Some((d, Time(0, 0, 0)))
  {
    var caps := [Capture(Month, TwoDigits(d.month)), Capture(Day, TwoDigits(d.day)), Capture(Year4, FourDigits(d.year))];
    MonthDayYearSearch(d);
    NumberTwoDigits(d.day);
    NumberTwoDigits(d.month);
    NumberFourDigits(d.year);
    LookupThree(Month, Day, Year4, TwoDigits(d.month), TwoDigits(d.day), FourDigits(d.year));
    MidnightByDefault(caps);
    assert DateOf(caps) == d;
  }

  /** `%m/%d/%y` stops after the first two year digits, leaving data
      unconverted. */
  lemma MonthDayYearNotShort(d: Date)
    requires ValidDate(d)
    ensures Strptime(MonthDayYear(d), DateFormats[2]).None?
  {
    var s := MonthDayYear(d);
    MonthDayYearShape(d);
    SlashedFieldsSearch(Month, Day, Year2, s, d.month, d.day, d.year / 100);
    assert DateFormats[2] == [Field(Month), Literal('/'), Field(Day), Literal('/'), Field(Year2)];
  }

  /** `mm/dd/yyyy` with a day past the twelfth fails both day-first formats
      and the month-first one with a two-digit year, and `%m/%d/%Y` reads
      the date. */
  lemma ParseDateMonthDayYear(d: Date)
    requires ValidDate(d) && 13 <= d.day
    ensures ParseDate(MonthDayYear(d)) == Some(d)
  {
    var s := MonthDayYear(d);
    var fs := DateFormats;
    MonthDayYearShape(d);
    assert Strptime(s, fs[0]).None? by {
      SecondNotMonth(fs[0], s, d.day);
    }
    assert Strptime(s, fs[1..][0]).None? by {
      assert fs[1..][0] == fs[1];
      SecondNotMonth(fs[1], s, d.day);
    }
    assert Strptime(s, fs[2..][0]).None? by {
      assert fs[2..][0] == fs[2];
      MonthDayYearNotShort(d);
    }
    assert Strptime(s, fs[3..][0]) == Some((d, Time(0, 0, 0))) by {
      assert fs[3..][0] == fs[3];
      StrptimeMonthDayYear(d);
    }
    FirstParseSkip(s, fs);
    FirstParseSkip(s, fs[1..]);
    assert fs[1..][1..] == fs[2..];
    FirstParseSkip(s, fs[2..]);
    assert fs[2..][1..] == fs[3..];
    FirstParseHit(s, fs[3..]);
  }

  /** `mm/dd/yyyy` with a day up to the twelfth is taken by `%d/%m/%Y`
      first, so day and month come back swapped. */
  lemma ParseDateMonthDayYearSwapped(d: Date)
    requires ValidDate(d) && d.day <= 12
    ensures ParseDate(MonthDayYear(d)) == Some(Date(d.year, d.day, d.month))
  {
    var e := Date(d.year, d.day, d.month);
    assert ValidDate(e) by {
      assert d.month <= 12 < DaysInMonth(e.year, e.month);
    }
    assert MonthDayYear(d) == DayMonthYear(e);
    ParseDateDayMonthYear(e);
  }

  lemma YearMonthDaySearch(d: Date)
    requires ValidDate(d)
    ensures Search(DateFormats[4], YearMonthDay(d), 0, [])
         == Some(Found(10, [Capture(Year4, FourDigits(d.year)), Capture(Month, TwoDigits(d.month)),
                            Capture(Day, TwoDigits(d.day))]))
  {
    var s := YearMonthDay(d);
    assert s[0..4] == FourDigits(d.year) && s[4] == '-' && s[5..7] == TwoDigits(d.month) && s[7] == '-'
           && s[8..10] == TwoDigits(d.day);
    YearFirstFormat();
    var rest: Format := [Literal('-'), Field(Month), Literal('-'), Field(Day)];
    var none: seq<Capture> := [];
    var c1 := none + [Capture(Year4, FourDigits(d.year))];
    var c2 := c1 + [Capture(Month, TwoDigits(d.month))];
    var c3 := c2 + [Capture(Day, TwoDigits(d.day))];
    var r := Some(Found(10, c3));
    var empty: Format := [];
    var last: Format := [Field(Day)] + empty;
    var tail: Format := [Literal('-')] + last;
    assert Search(tail, s, 7, c2) == r by {
      assert Search(empty, s, 10, c3) == r;
      TwoDigitPick(Day, empty, s, 8, c2, d.day);
      assert tail[1..] == last;
    }
    assert Search(rest[1..], s, 5, c1) == r by {
      TwoDigitPick(Month, tail, s, 5, c1, d.month);
      assert rest[1..] == [Field(Month)] + tail;
    }
    assert Search(rest, s, 4, c1) == r;
    Year4Pick(rest, s, 0, none, d.year);
    assert Search(DateFormats[4], s, 0, []) == r;
    assert c3 == [Capture(Year4, FourDigits(d.year)), Capture(Month, TwoDigits(d.month)), Capture(Day, TwoDigits(d.day))];
  }

  /** `%Y-%m-%d` reads `yyyy-mm-dd` back as the date written. */
  lemma StrptimeYearMonthDay(d: Date)
    requires ValidDate(d)
    ensures Strptime(YearMonthDay(d), DateFormats[4]) == Some((d, Time(0, 0, 0)))
  {
    var caps := [Capture(Year4, FourDigits(d.year)), Capture(Month, TwoDigits(d.month)), Capture(Day, TwoDigits(d.day))];
    YearMonthDaySearch(d);
    NumberTwoDigits(d.day);
    NumberTwoDigits(d.month);
    NumberFourDigits(d.year);
    LookupThree(Year4, Month, Day, FourDigits(d.year), TwoDigits(d.month), TwoDigits(d.day));
    MidnightByDefault(caps);
    assert DateOf(caps) == d;
  }

  /** Every valid date written `yyyy-mm-dd` is read back as itself: the
      slashed formats cannot take it, and `%Y-%m-%d` does. */
  lemma ParseDateYearMonthDay(d: Date)
    requires ValidDate(d)
    ensures ParseDate(YearMonthDay(d)) == Some(d)
  {
    var s := YearMonthDay(d);
    assert forall k :: 0 <= k < 10 ==> s[k] == '-' || IsDigit(s[k]);
    ParseDateNoSlash(s);
    StrptimeYearMonthDay(d);
  }

  lemma ChristmasLongText()
    ensures MonthDayYear(Date(2024, 12, 25)) == "12/25/2024"
    ensures YearMonthDay(Date(2024, 12, 25)) == "2024-12-25"
  {
  }

  /** `12/25/2024` and `2024-12-25` are both the 25th of December 2024. */
  lemma ParseDateChristmasLong()
    ensures ParseDate("12/25/2024") == Some(Date(2024, 12, 25))
    ensures ParseDate("2024-12-25") == Some(Date(2024, 12, 25))
  {
    var d := Date(2024, 12, 25);
    assert ValidDate(d);
    ParseDateMonthDayYear(d);
    ParseDateYearMonthDay(d);
    ChristmasLongText();
  }

  // ---------------------------------------------------------------------
  // Times with a morning or afternoon marker.

  /** `h:mm AM` or `h:mm PM` */
  function Clock(h: nat, m: nat, pm: bool, pad: bool): string
    requires h <= 99 && m <= 99
  {
    Written(h, pad) + ":" + TwoDigits(m) + " " + Marker(pm)
  }

  /** Where the parts of `h:mm AM` sit. */
  lemma ClockShape(h: nat, m: nat, pm: bool, pad: bool)
    requires h <= 99 && m <= 99
    ensures var s := Clock(h, m, pm, pad);
            var k := |Written(h, pad)|;
            |s| == k + 6 && s[..k] == Written(h, pad) && s[k] == ':' && s[k + 1..k + 3] == TwoDigits(m)
            && s[k + 3] == ' ' && s[k + 4..k + 6] == Marker(pm)
  {
    var x := Written(h, pad);
    var k := |x|;
    var s0 := x + ":";
    var s1 := s0 + TwoDigits(m);
    var s2 := s1 + " ";
    var s := s2 + Marker(pm);
    assert s[..k] == x;
    assert s[k] == s0[k] == ':';
    assert s[k + 1..k + 3] == s1[k + 1..] == TwoDigits(m);
    assert s[k + 3] == s2[k + 3] == ' ';
    assert s[k + 4..] == Marker(pm);
  }

  /** After the hour, the colon, the minutes, a blank and the marker take
      the rest of `h:mm AM`. */
  lemma MinuteMarkerSearch(s: string, k: nat, m: nat, pm: bool, c1: seq<Capture>)
    requires m <= 59 && |s| == k + 6
    requires s[k] == ':' && s[k + 1..k + 3] == TwoDigits(m) && s[k + 3] == ' ' && s[k + 4..k + 6] == Marker(pm)
    ensures Search([Literal(':'), Field(Minute), Blank, Field(AmPm)], s, k, c1)
            == Some(Found(k + 6, c1 + [Capture(Minute, TwoDigits(m)), Capture(AmPm, Marker(pm))]))
  {
    var f := [Literal(':'), Field(Minute), Blank, Field(AmPm)];
    var c2 := c1 + [Capture(Minute, TwoDigits(m))];
    var c3 := c2 + [Capture(AmPm, Marker(pm))];
    var r := Some(Found(k + 6, c3));
    assert Search([], s, k + 6, c3) == r;
    AmPmPick([], s, k + 4, c2, pm);
    assert [Field(AmPm)] + [] == f[3..] == f[2..][1..];
    assert s[k + 4] == Marker(pm)[0];
    BlankStep(f[2..], s, k + 3, c2, r);
    TwoDigitPick(Minute, f[2..], s, k + 1, c1, m);
    assert [Field(Minute)] + f[2..] == f[1..];
    LiteralStep(f, s, k, c1, r);
    assert c3 == c1 + [Capture(Minute, TwoDigits(m)), Capture(AmPm, Marker(pm))];
  }

  /** An hour of one or two digits before a colon is taken whole by `%I`
      or `%H`. */
  lemma HourPick(d: Directive, rest: Format, s: string, h: nat, x: string)
    requires (d == Hour12 && 1 <= h <= 12) || (d == Hour24 && h <= 23)
    requires x == TwoDigits(h) || (h <= 9 && x == [DigitChar(h)])
    requires |x| + 1 <= |s| && s[..|x|] == x && s[|x|] == ':'
    requires Search(rest, s, |x|, [Capture(d, x)]).Some?
    ensures Search([Field(d)] + rest, s, 0, []) == Search(rest, s, |x|, [Capture(d, x)])
  {
    var none: seq<Capture> := [];
    assert none + [Capture(d, x)] == [Capture(d, x)];
    if |x| == 2 {
      assert s[0..2] == TwoDigits(h);
      TwoDigitPick(d, rest, s, 0, none, h);
    } else {
      assert s[0] == x[0] == DigitChar(h);
      OneDigitPick(d, rest, s, 0, none, h);
    }
  }

  /** An hour group, a colon, the minutes, a blank and the marker take
      any text laid out as `h:mm AM`. */
  lemma HourMinuteMarkerSearch(d: Directive, s: string, h: nat, x: string, m: nat, pm: bool)
    requires (d == Hour12 && 1 <= h <= 12) || (d == Hour24 && h <= 23)
    requires m <= 59 && (x == TwoDigits(h) || (h <= 9 && x == [DigitChar(h)]))
    requires var k := |x|;
             |s| == k + 6 && s[..k] == x && s[k] == ':' && s[k + 1..k + 3] == TwoDigits(m)
             && s[k + 3] == ' ' && s[k + 4..k + 6] == Marker(pm)
    ensures Search([Field(d), Literal(':'), Field(Minute), Blank, Field(AmPm)], s, 0, [])
            == Some(Found(|s|, [Capture(d, x), Capture(Minute, TwoDigits(m)), Capture(AmPm, Marker(pm))]))
  {
    var f := [Field(d), Literal(':'), Field(Minute), Blank, Field(AmPm)];
    var c1 := [Capture(d, x)];
    var c3 := c1 + [Capture(Minute, TwoDigits(m)), Capture(AmPm, Marker(pm))];
    assert f[1..] == [Literal(':'), Field(Minute), Blank, Field(AmPm)];
    MinuteMarkerSearch(s, |x|, m, pm, c1);
    HourPick(d, f[1..], s, h, x);
    assert [Field(d)] + f[1..] == f;
    assert c3 == [Capture(d, x), Capture(Minute, TwoDigits(m)), Capture(AmPm, Marker(pm))];
  }

  /** The same for `h:mm AM` itself. */
  lemma ClockSearch(d: Directive, h: nat, m: nat, pm: bool, pad: bool)
    requires (d == Hour12 && 1 <= h <= 12) || (d == Hour24 && h <= 23)
    requires m <= 59
    ensures var s := Clock(h, m, pm, pad);
            Search([Field(d), Literal(':'), Field(Minute), Blank, Field(AmPm)], s, 0, [])
            == Some(Found(|s|, [Capture(d, Written(h, pad)), Capture(Minute, TwoDigits(m)), Capture(AmPm, Marker(pm))]))
  {
    ClockShape(h, m, pm, pad);
    HourMinuteMarkerSearch(d, Clock(h, m, pm, pad), h, Written(h, pad), m, pm);
  }

  /** The captures of an hour, the minutes and a marker: `%H` reads the hour
      as written, `%I` turns it with the marker. */
  lemma ClockFields(d: Directive, a: string, b: string, pm: bool)
    requires d == Hour12 || d == Hour24
    ensures var caps := [Capture(d, a), Capture(Minute, b), Capture(AmPm, Marker(pm))];
            TimeOf(caps) == Time(if d == Hour24 then Number(a) else Hour12Of(Number(a), Some(Marker(pm))), Number(b), 0)
            && DateOf(caps) == Date(1900, 1, 1)
  {
    var caps := [Capture(d, a), Capture(Minute, b), Capture(AmPm, Marker(pm))];
    LookupThree(d, Minute, AmPm, a, b, Marker(pm));
    assert Lookup(caps, Second) == None && Lookup(caps, Year4) == None && Lookup(caps, Year2) == None;
    assert Lookup(caps, Month) == None && Lookup(caps, Day) == None;
    if d == Hour12 {
      assert Lookup(caps, Hour24) == None;
      assert TimeOf(caps) == Time(Hour12Of(Number(a), Some(Marker(pm))), Number(b), 0);
    } else {
      assert TimeOf(caps) == Time(Number(a), Number(b), 0);
    }
  }

  /** The marker in lower case, as `%p` compares it. */
  lemma LowerMarker(pm: bool)
    ensures Lower(Marker(pm)) == if pm then "pm" else "am"
  {
    var x := Lower(Marker(pm));
    assert |x| == 2 && x[0] == LowerChar(Marker(pm)[0]) && x[1] == LowerChar(Marker(pm)[1]);
  }

  /** `%I` and `%p` together: the clock hour of `h` in the morning or the
      afternoon. */
  lemma Hour12OfMarker(h: nat, pm: bool)
    requires 1 <= h <= 12
    ensures Hour12Of(h, Some(Marker(pm)))
            == if pm then (if h == 12 then 12 else h + 12) else (if h == 12 then 0 else h)
  {
    LowerMarker(pm);
    LowerMarker(!pm);
  }

  /** Text without dots or lower-case letters is left alone by the cleaning
      step. */
  lemma CleanUnchanged(s: string)
    requires forall k :: 0 <= k < |s| ==> s[k] != '.' && UpperChar(s[k]) == s[k]
    ensures CleanTime(s) == s
  {
    RemoveDotsNone(s);
  }

  lemma CleanClock(h: nat, m: nat, pm: bool, pad: bool)
    requires h <= 99 && m <= 99
    ensures CleanTime(Clock(h, m, pm, pad)) == Clock(h, m, pm, pad)
    ensures Clock(h, m, pm, pad)[|Clock(h, m, pm, pad)| - 1] == 'M'
  {
    var s := Clock(h, m, pm, pad);
    var k := |Written(h, pad)|;
    assert forall j :: 0 <= j < k ==> IsDigit(s[j]);
    assert forall j :: k + 1 <= j < k + 3 ==> IsDigit(s[j]);
    CleanUnchanged(s);
  }

  /** The twenty-four-hour formats without a marker refuse a clock time. */
  lemma ClockNot24Hour(h: nat, m: nat, pm: bool, pad: bool)
    requires h <= 99 && m <= 99
    ensures Strptime(Clock(h, m, pm, pad), TimeFormats[0]).None?
    ensures Strptime(Clock(h, m, pm, pad), TimeFormats[1]).None?
  {
    var s := Clock(h, m, pm, pad);
    CleanClock(h, m, pm, pad);
    NoLetterIn24Hour(s[|s| - 1]);
    StrptimeForeign(s, TimeFormats[0], |s| - 1);
    StrptimeForeign(s, TimeFormats[1], |s| - 1);
  }

  /** `%I:%M %p` reads `h:mm AM` and `h:mm PM` with `h` from 1 to 12 as
      the clock hour turned by the marker. */
  lemma StrptimeTwelveHour(h: nat, m: nat, pm: bool, pad: bool)
    requires 1 <= h <= 12 && m <= 59
    ensures Strptime(Clock(h, m, pm, pad), TimeFormats[2])
            == Some((Date(1900, 1, 1), Time(if pm then (if h == 12 then 12 else h + 12) else (if h == 12 then 0 else h), m, 0)))
  {
    ClockSearch(Hour12, h, m, pm, pad);
    NumberWritten(h, pad);
    NumberTwoDigits(m);
    ClockFields(Hour12, Written(h, pad), TwoDigits(m), pm);
    Hour12OfMarker(h, pm);
  }

  /** `h:mm AM` and `h:mm PM` with `h` from 1 to 12 are read as the clock
      time: the formats without a marker cannot take the `M`, and
      `%I:%M %p` is tried next. */
  lemma ParseTimeTwelveHour(h: nat, m: nat, pm: bool, pad: bool)
    requires 1 <= h <= 12 && m <= 59
    ensures ParseTime(Clock(h, m, pm, pad))
            == Some(Time(if pm then (if h == 12 then 12 else h + 12) else (if h == 12 then 0 else h), m, 0))
  {
    CleanClock(h, m, pm, pad);
    ClockNot24Hour(h, m, pm, pad);
    StrptimeTwelveHour(h, m, pm, pad);
  }

  /** The twelve-hour formats refuse an hour from 13 on. */
  lemma ClockNot12Hour(h: nat, m: nat, pm: bool)
    requires 13 <= h <= 99 && m <= 99
    ensures Strptime(Clock(h, m, pm, true), TimeFormats[2]).None?
    ensures Strptime(Clock(h, m, pm, true), TimeFormats[3]).None?
  {
    var s := Clock(h, m, pm, true);
    assert s[..2] == TwoDigits(h);
    Hour12TooBig(TimeFormats[2], s, h);
    Hour12TooBig(TimeFormats[3], s, h);
    assert Search(TimeFormats[2], s, 0, []).None?;
    assert Search(TimeFormats[3], s, 0, []).None?;
  }

  /** `HH:MM AM` or `HH:MM PM` with an hour from 13 on is read as written,
      the marker ignored: `%I` refuses the hour, and `%H:%M %p` is tried
      last. */
  lemma ParseTimeMarkerIgnored(h: nat, m: nat, pm: bool)
    requires 13 <= h <= 23 && m <= 59
    ensures ParseTime(Clock(h, m, pm, true)) == Some(Time(h, m, 0))
  {
    CleanClock(h, m, pm, true);
    ClockNot24Hour(h, m, pm, true);
    ClockNot12Hour(h, m, pm);
    StrptimeMarkerIgnored(h, m, pm);
  }

  /** `%H:%M %p` reads the hour as written and ignores the marker. */
  lemma StrptimeMarkerIgnored(h: nat, m: nat, pm: bool)
    requires h <= 23 && m <= 59
    ensures Strptime(Clock(h, m, pm, true), TimeFormats[4]) == Some((Date(1900, 1, 1), Time(h, m, 0)))
  {
    ClockSearch(Hour24, h, m, pm, true);
    NumberTwoDigits(h);
    NumberTwoDigits(m);
    ClockFields(Hour24, TwoDigits(h), TwoDigits(m), pm);
  }

  /** The time functions see only the cleaned text. */
  lemma ParseTimeSameClean(a: string, b: string)
    requires CleanTime(a) == CleanTime(b)
    ensures ParseTime(a) == ParseTime(b)
  {
  }

  /** The cleaning step works character by character, so it splits over a
      concatenation. */
  lemma CleanAppend(a: string, b: string)
    ensures CleanTime(a + b) == CleanTime(a) + CleanTime(b)
  {
    RemoveDotsAppend(a, b);
    var x, y := RemoveDots(a), RemoveDots(b);
    assert Upper(x + y) == Upper(x) + Upper(y);
  }

  /** `h:mm ` in front of the marker. */
  function ClockFront(h: nat, m: nat, pad: bool): string
    requires h <= 99 && m <= 99
  {
    Written(h, pad) + ":" + TwoDigits(m) + " "
  }

  /** `pm` and `p.m.`, or `am` and `a.m.`, clean to the marker. */
  lemma CleanMarkerSpellings(pm: bool)
    ensures CleanTime(if pm then "pm" else "am") == Marker(pm)
    ensures CleanTime(if pm then "p.m." else "a.m.") == Marker(pm)
  {
    var w := if pm then "pm" else "am";
    var v := if pm then "p.m." else "a.m.";
    RemoveDotsNone(w);
    assert v[1..][1..] == v[2..];
    assert RemoveDots(v[2..]) == "m";
    assert RemoveDots(v) == w;
    var u := Upper(w);
    assert |u| == 2 && u[0] == UpperChar(w[0]) && u[1] == UpperChar(w[1]);
  }

  /** Any spelling of the marker that cleans to `AM` or `PM` is read as that
      marker: `2:30 p.m.` and `2:30 pm` are both `2:30 PM`. */
  lemma ParseTimeMarkerSpelling(h: nat, m: nat, pm: bool, pad: bool, w: string)
    requires 1 <= h <= 12 && m <= 59 && CleanTime(w) == Marker(pm)
    ensures ParseTime(ClockFront(h, m, pad) + w)
            == Some(Time(if pm then (if h == 12 then 12 else h + 12) else (if h == 12 then 0 else h), m, 0))
  {
    var front := ClockFront(h, m, pad);
    assert Clock(h, m, pm, pad) == front + Marker(pm);
    CleanAppend(front, w);
    CleanAppend(front, Marker(pm));
    CleanClock(h, m, pm, pad);
    ParseTimeSameClean(front + w, Clock(h, m, pm, pad));
    ParseTimeTwelveHour(h, m, pm, pad);
  }

  lemma AfternoonText()
    ensures ClockFront(2, 30, false) + "p.m." == "2:30 p.m."
  {
  }

  /** `2:30 p.m.` is half past two in the afternoon. */
  lemma ParseTimeHalfPastTwo()
    ensures ParseTime("2:30 p.m.") == Some(Time(14, 30, 0))
  {
    CleanMarkerSpellings(true);
    ParseTimeMarkerSpelling(2, 30, true, false, "p.m.");
    AfternoonText();
  }

  lemma AfterMidnightText()
    ensures Clock(12, 5, false, true) == "12:05 AM"
  {
  }

  /** `12:05 AM` is five past midnight. */
  lemma ParseTimeAfterMidnight()
    ensures ParseTime("12:05 AM") == Some(Time(0, 5, 0))
  {
    ParseTimeTwelveHour(12, 5, false, true);
    AfterMidnightText();
  }

  lemma MarkedAfternoonText()
    ensures Clock(14, 30, true, true) == "14:30 PM"
  {
  }

  /** `14:30 PM` is read by `%H:%M %p` as half past two, the marker
      ignored. */
  lemma ParseTimeMarkedAfternoon()
    ensures ParseTime("14:30 PM") == Some(Time(14, 30, 0))
  {
    ParseTimeMarkerIgnored(14, 30, true);
    MarkedAfternoonText();
  }

  /** Looking up the captures of three distinct directives. */
  lemma LookupThree(d1: Directive, d2: Directive, d3: Directive, x1: string, x2: string, x3: string)
    requires d1 != d2 && d1 != d3 && d2 != d3
    ensures var caps := [Capture(d1, x1), Capture(d2, x2), Capture(d3, x3)];
            Lookup(caps, d1) == Some(x1) && Lookup(caps, d2) == Some(x2) && Lookup(caps, d3) == Some(x3)
            && forall d :: d != d1 && d != d2 && d != d3 ==> Lookup(caps, d) == None
  {
    var caps := [Capture(d1, x1), Capture(d2, x2), Capture(d3, x3)];
    assert caps[1..] == [Capture(d2, x2), Capture(d3, x3)];
    assert caps[1..][1..] == [Capture(d3, x3)];
    assert caps[1..][1..][1..] == [];
    assert Lookup(caps[1..][1..], d3) == Some(x3);
    assert Lookup(caps[1..], d2) == Some(x2);
    assert Lookup(caps[1..], d3) == Some(x3);
    forall d | d != d1 && d != d2 && d != d3
      ensures Lookup(caps, d) == None
    {
      assert Lookup(caps[1..][1..][1..], d) == None;
      assert Lookup(caps[1..][1..], d) == None;
      assert Lookup(caps[1..], d) == None;
    }
  }
}
