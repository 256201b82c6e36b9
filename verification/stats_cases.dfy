/** The statistics of src/whatsapp_utiles.py on the message lists of
    src/whatsapp_utiles_test.py. */
module StatsCases {
  import opened Optional
  import opened Calendar
  import opened Messages
  import opened Counters
  import opened Stats

  /** A day of January 2024. */
  function Jan(day: int): DateValue
    requires 1 <= day <= 31
  {
    Date(2024, 1, day)
  }

  /** A message sent on a day of January 2024. */
  function Sent(day: int, hour: int, minute: int, author: string, text: string): Message
    requires 1 <= day <= 31 && 0 <= hour <= 23 && 0 <= minute <= 59
  {
    Message(Jan(day), Time(hour, minute, 0), author, text)
  }

  lemma UsersDiffer()
    ensures "Usuario1" != "Usuario2"
  {
    assert "Usuario1"[7] != "Usuario2"[7];
  }

  // ---------------------------------------------------------------------
  // `calcula_rango_fechas`

  function RangeMessages(): seq<Message> {
    [Sent(1, 10, 0, "Usuario1", "Mensaje 1"),
     Sent(2, 11, 0, "Usuario2", "Mensaje 2"),
     Sent(3, 12, 0, "Usuario1", "Mensaje 3")]
  }

  /** The range runs from the first message's date to the last one's. */
  lemma RangeCase()
    ensures DateRange(RangeMessages()) == Some((Jan(1), Jan(3)))
  {
  }

  // ---------------------------------------------------------------------
  // `filtra_mensajes_por_fechas`

  function FilterMessages(): seq<Message> {
    [Sent(1, 10, 0, "Usuario1", "Mensaje 1"),
     Sent(2, 11, 0, "Usuario2", "Mensaje 2"),
     Sent(3, 12, 0, "Usuario1", "Mensaje 3"),
     Sent(4, 13, 0, "Usuario2", "Mensaje 4")]
  }

  lemma FilterPrefixes()
    ensures var ms := FilterMessages();
            ms[..4] == ms && ms[..3] == ms[..4][..3] && ms[..2] == ms[..3][..2] && ms[..1] == ms[..2][..1]
            && ms[..1][..0] == []
  {
  }

  /** Both bounds: the messages of the 2nd and the 3rd, in order. */
  lemma FilterBothCase()
    ensures var r := Filtered(FilterMessages(), Some(Jan(2)), Some(Jan(3)));
            |r| == 2 && r[0].date == Jan(2) && r[1].date == Jan(3)
  {
    var ms := FilterMessages();
    FilterPrefixes();
    var lo, hi := Some(Jan(2)), Some(Jan(3));
    assert Filtered(ms[..1], lo, hi) == [];
    assert Filtered(ms[..2], lo, hi) == [ms[1]];
    assert Filtered(ms[..3], lo, hi) == [ms[1], ms[2]];
  }

  /** Only a start: the messages from the 3rd on. */
  lemma FilterFromCase()
    ensures |Filtered(FilterMessages(), Some(Jan(3)), None)| == 2
  {
    var ms := FilterMessages();
    FilterPrefixes();
    var lo := Some(Jan(3));
    assert Filtered(ms[..2], lo, None) == [];
    assert Filtered(ms[..3], lo, None) == [ms[2]];
  }

  /** Only an end: the messages up to the 2nd. */
  lemma FilterUntilCase()
    ensures |Filtered(FilterMessages(), None, Some(Jan(2)))| == 2
  {
    var ms := FilterMessages();
    FilterPrefixes();
    var hi := Some(Jan(2));
    assert Filtered(ms[..1], None, hi) == [ms[0]];
    assert Filtered(ms[..2], None, hi) == [ms[0], ms[1]];
    assert Filtered(ms[..3], None, hi) == [ms[0], ms[1]];
  }

  /** No bounds: all four messages. */
  lemma FilterAllCase()
    ensures |Filtered(FilterMessages(), None, None)| == 4
  {
    FilteredUnbounded(FilterMessages());
  }

  // ---------------------------------------------------------------------
  // `cuenta_mensajes_por_usuario`

  function AuthorMessages(): seq<Message> {
    [Sent(1, 10, 0, "Usuario1", "Mensaje 1"),
     Sent(2, 11, 0, "Usuario2", "Mensaje 2"),
     Sent(3, 12, 0, "Usuario1", "Mensaje 3"),
     Sent(4, 13, 0, "Usuario1", "Mensaje 4")]
  }

  /** Three messages by `Usuario1`, one by `Usuario2`. */
  lemma AuthorCase()
    ensures Get(CountByAuthor(AuthorMessages()), "Usuario1") == 3
    ensures Get(CountByAuthor(AuthorMessages()), "Usuario2") == 1
  {
    var ms := AuthorMessages();
    UsersDiffer();
    CountBySpec(ms, AuthorOf);
    assert ms[..4] == ms && ms[..3][..2] == ms[..2] && ms[..2][..1] == ms[..1] && ms[..1][..0] == [];
    assert |Matching(ms[..1], AuthorOf, "Usuario1")| == 1 && |Matching(ms[..1], AuthorOf, "Usuario2")| == 0;
    assert |Matching(ms[..2], AuthorOf, "Usuario1")| == 1 && |Matching(ms[..2], AuthorOf, "Usuario2")| == 1;
    assert |Matching(ms[..3], AuthorOf, "Usuario1")| == 2 && |Matching(ms[..3], AuthorOf, "Usuario2")| == 1;
  }

  // ---------------------------------------------------------------------
  // `cuenta_mensajes_por_hora`

  function HourMessages(): seq<Message> {
    [Sent(1, 10, 0, "Usuario1", "Mensaje 1"),
     Sent(2, 11, 0, "Usuario2", "Mensaje 2"),
     Sent(3, 10, 30, "Usuario1", "Mensaje 3"),
     Sent(4, 15, 0, "Usuario2", "Mensaje 4")]
  }

  /** Two messages at 10, one at 11, one at 15, none at 12. */
  lemma HourCase()
    ensures var c := CountByHour(HourMessages());
            Get(c, 10) == 2 && Get(c, 11) == 1 && Get(c, 15) == 1 && Get(c, 12) == 0
  {
    var ms := HourMessages();
    CountBySpec(ms, HourOf);
    assert ms[..4] == ms && ms[..3][..2] == ms[..2] && ms[..2][..1] == ms[..1] && ms[..1][..0] == [];
    assert |Matching(ms[..1], HourOf, 10)| == 1 && |Matching(ms[..1], HourOf, 11)| == 0;
    assert |Matching(ms[..1], HourOf, 15)| == 0 && |Matching(ms[..1], HourOf, 12)| == 0;
    assert |Matching(ms[..2], HourOf, 10)| == 1 && |Matching(ms[..2], HourOf, 11)| == 1;
    assert |Matching(ms[..2], HourOf, 15)| == 0 && |Matching(ms[..2], HourOf, 12)| == 0;
    assert |Matching(ms[..3], HourOf, 10)| == 2 && |Matching(ms[..3], HourOf, 11)| == 1;
    assert |Matching(ms[..3], HourOf, 15)| == 0 && |Matching(ms[..3], HourOf, 12)| == 0;
  }

  // ---------------------------------------------------------------------
  // `cuenta_mensajes_por_dia_semana`

  function WeekdayMessages(): seq<Message> {
    [Sent(1, 10, 0, "Usuario1", "Mensaje 1"),
     Sent(2, 11, 0, "Usuario2", "Mensaje 2"),
     Sent(8, 12, 0, "Usuario1", "Mensaje 3")]
  }

  /** The 1st and the 8th of January 2024 were Mondays, the 2nd a Tuesday. */
  lemma WeekdayNamesCase()
    ensures var ms := WeekdayMessages();
            WeekdayOf(ms[0]) == "Lunes" && WeekdayOf(ms[1]) == "Martes" && WeekdayOf(ms[2]) == "Lunes"
  {
    WeekdayOfOrdinal(Jan(1), 0);
    WeekdayOfOrdinal(Jan(2), 1);
    WeekdayOfOrdinal(Jan(8), 0);
  }

  /** Two Mondays, one Tuesday, no Wednesday. */
  lemma WeekdayCase()
    ensures var c := CountByWeekday(WeekdayMessages());
            Get(c, "Lunes") == 2 && Get(c, "Martes") == 1 && Get(c, "Miércoles") == 0
  {
    var ms := WeekdayMessages();
    WeekdayNamesCase();
    assert "Lunes" != "Martes" && "Lunes" != "Miércoles" && "Martes" != "Miércoles" by {
      assert "Lunes"[0] != "Martes"[0] && "Lunes"[0] != "Miércoles"[0] && "Martes"[1] != "Miércoles"[1];
    }
    CountBySpec(ms, WeekdayOf);
    assert ms[..3] == ms && ms[..2][..1] == ms[..1] && ms[..1][..0] == [];
    assert |Matching(ms[..1], WeekdayOf, "Lunes")| == 1 && |Matching(ms[..1], WeekdayOf, "Martes")| == 0;
    assert |Matching(ms[..1], WeekdayOf, "Miércoles")| == 0;
    assert |Matching(ms[..2], WeekdayOf, "Lunes")| == 1 && |Matching(ms[..2], WeekdayOf, "Martes")| == 1;
    assert |Matching(ms[..2], WeekdayOf, "Miércoles")| == 0;
  }

  // ---------------------------------------------------------------------
  // `calcula_longitud_media_por_usuario`

  function LengthMessages(): seq<Message> {
    [Sent(1, 10, 0, "Usuario1", "Hola"),
     Sent(2, 11, 0, "Usuario2", "Hola mundo"),
     Sent(3, 12, 0, "Usuario1", "Adiós")]
  }

  lemma LengthTotalsCase()
    ensures LengthTotals(LengthMessages()) == [("Usuario1", 9), ("Usuario2", 10)]
  {
    var ms := LengthMessages();
    UsersDiffer();
    assert ms[..3] == ms && ms[..2][..1] == ms[..1] && ms[..1][..0] == [];
    assert |"Hola"| == 4 && |"Hola mundo"| == 10 && |"Adiós"| == 5;
    var c1: Counter<string> := [("Usuario1", 4)];
    assert LengthTotals(ms[..1]) == c1 && c1[1..] == [];
    assert LengthTotals(ms[..2]) == [("Usuario1", 4), ("Usuario2", 10)];
  }

  lemma AuthorCountsCase()
    ensures Get(CountByAuthor(LengthMessages()), "Usuario1") == 2
    ensures Get(CountByAuthor(LengthMessages()), "Usuario2") == 1
  {
    var ms := LengthMessages();
    UsersDiffer();
    CountOf(ms, "Usuario1");
    CountOf(ms, "Usuario2");
    assert ms[..3] == ms && ms[..2][..1] == ms[..1] && ms[..1][..0] == [];
    assert |Matching(ms[..1], AuthorOf, "Usuario1")| == 1 && |Matching(ms[..1], AuthorOf, "Usuario2")| == 0;
    assert |Matching(ms[..2], AuthorOf, "Usuario1")| == 1 && |Matching(ms[..2], AuthorOf, "Usuario2")| == 1;
  }

  /** `Usuario1` wrote 4 and 5 characters, a mean of 4.5; `Usuario2` wrote
      10 once. */
  lemma MeanLengthCase()
    ensures MeanLengthByAuthor(LengthMessages()) == [("Usuario1", 4.5), ("Usuario2", 10.0)]
  {
    LengthTotalsCase();
    AuthorCountsCase();
  }

  // ---------------------------------------------------------------------
  // `detecta_dia_mas_activo`

  function BusyMessages(): seq<Message> {
    [Sent(1, 10, 0, "Usuario1", "Mensaje 1"),
     Sent(2, 11, 0, "Usuario2", "Mensaje 2"),
     Sent(2, 12, 0, "Usuario1", "Mensaje 3"),
     Sent(2, 13, 0, "Usuario2", "Mensaje 4")]
  }

  lemma BusyMatching()
    ensures |Matching(BusyMessages(), DayOf, Jan(1))| == 1
    ensures |Matching(BusyMessages(), DayOf, Jan(2))| == 3
    ensures Project(BusyMessages(), DayOf) == [Jan(1), Jan(2), Jan(2), Jan(2)]
  {
    var ms := BusyMessages();
    assert ms[..4] == ms && ms[..3][..2] == ms[..2] && ms[..2][..1] == ms[..1] && ms[..1][..0] == [];
    assert |Matching(ms[..1], DayOf, Jan(1))| == 1 && |Matching(ms[..1], DayOf, Jan(2))| == 0;
    assert |Matching(ms[..2], DayOf, Jan(1))| == 1 && |Matching(ms[..2], DayOf, Jan(2))| == 1;
    assert |Matching(ms[..3], DayOf, Jan(1))| == 1 && |Matching(ms[..3], DayOf, Jan(2))| == 2;
  }

  /** The 2nd has three messages and is the busiest day; no messages, no
      busiest day. */
  lemma BusiestCase()
    ensures BusiestDay(BusyMessages()) == Some((Jan(2), 3))
    ensures BusiestDay([]) == None
  {
    var ms := BusyMessages();
    BusyMatching();
    BusiestDayBeats(ms, Jan(2));
    BusiestDayCount(ms);
    var (d, n) := BusiestDay(ms).value;
    assert d == Jan(1) || d == Jan(2);
  }
}
