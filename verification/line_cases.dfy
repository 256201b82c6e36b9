/** Chat lines read by the pattern of `leer_log_whatsapp`
    (src/whatsapp_loader.py, lines 20-23), worked through group by group. */
module LineCases {
  import opened Chars
  import opened Optional
  import opened Calendar
  import opened LinePattern
  import opened Strptime
  import opened Messages
  import opened Loader

  lemma ScanAuthorAt(s: string, t: nat, date: string, time: string, a: nat, j: nat)
    requires t <= |s| && AuthorStart(s, t) == Some(a) && FirstColonSpace(s, a) == Some(j)
    ensures ScanAuthor(s, t, date, time) == Some(Groups(date, time, s[a..j], s[j + 2..]))
  {
  }

  lemma ScanFromAt(s: string, e: nat, date: string, t0: nat, t: nat)
    requires e <= |s| && SepEnd(s, e) == t0 && e < t0 && TimeEnd(s, t0) == Some(t)
    ensures ScanFrom(s, e, date) == ScanAuthor(s, t, date, s[t0..t])
  {
  }

  /** The groups of a line, given where each one is found. */
  lemma ScanLineAt(s: string, e: nat, t0: nat, t: nat, a: nat, j: nat)
    requires DateEnd(s, DateStart(s)) == Some(e)
    requires e <= |s| && SepEnd(s, e) == t0 && e < t0 && TimeEnd(s, t0) == Some(t)
    requires AuthorStart(s, t) == Some(a) && FirstColonSpace(s, a) == Some(j)
    ensures ScanLine(s) == Some(Groups(s[DateStart(s)..e], s[t0..t], s[a..j], s[j + 2..]))
  {
    var date := s[DateStart(s)..e];
    assert ScanLine(s) == ScanFrom(s, e, date);
    ScanFromAt(s, e, date, t0, t);
    ScanAuthorAt(s, t, date, s[t0..t], a, j);
  }

  // ---------------------------------------------------------------------
  // A line whose author is empty: the colon right after the time is the
  // one the author group ends at.

  const NoAuthor: string := "1/2/24, 10:30: hola"

  lemma NoAuthorField3()
    ensures Field3End(NoAuthor, 4) == Some(6)
  {
    assert Digits(NoAuthor, 4, 4) == 2;
  }

  lemma NoAuthorField2()
    ensures Field2End(NoAuthor, 2) == Some(6)
  {
    NoAuthorField3();
    assert Digits(NoAuthor, 2, 2) == 1;
  }

  lemma NoAuthorDate()
    ensures DateStart(NoAuthor) == 0 && DateEnd(NoAuthor, 0) == Some(6)
  {
    NoAuthorField2();
    assert Digits(NoAuthor, 0, 4) == 1;
  }

  lemma NoAuthorSep()
    ensures SepEnd(NoAuthor, 6) == 8
  {
    assert SepEnd(NoAuthor, 8) == 8;
  }

  lemma NoAuthorMinutes()
    ensures HourMinutesAt(NoAuthor, 8) && MinutesEnd(NoAuthor, 8) == 13
  {
    assert Digits(NoAuthor, 8, 2) == 2 && NoAuthor[10] == ':' && Digits(NoAuthor, 11, 2) == 2;
  }

  lemma NoAuthorSeconds()
    ensures SecondsEnd(NoAuthor, 13) == 13
  {
    assert !ColonDigitsAt(NoAuthor, 13) by {
      assert Digits(NoAuthor, 14, 2) == 0;
    }
  }

  lemma NoAuthorMeridiem()
    ensures MeridiemEnd(NoAuthor, 13) == 13
  {
    assert !IsSpace(NoAuthor[13]) && !IsMeridiemLetter(NoAuthor[13]);
  }

  lemma NoAuthorTime()
    ensures TimeEnd(NoAuthor, 8) == Some(13)
  {
    NoAuthorMinutes();
    NoAuthorSeconds();
    NoAuthorMeridiem();
  }

  lemma NoAuthorAuthorStart()
    ensures AuthorStart(NoAuthor, 13) == Some(13)
  {
    assert NoAuthor[14] == ' ' && !SpaceOrDash(NoAuthor[15]);
    assert SkipSpaceDash(NoAuthor, 15) == 15 && SkipSpaceDash(NoAuthor, 14) == 15;
    FirstColonSpaceSkip(NoAuthor, 15, |NoAuthor|);
    assert FirstColonSpace(NoAuthor, |NoAuthor|) == None;
    assert ColonSpaceAt(NoAuthor, 13);
  }

  lemma NoAuthorColon()
    ensures FirstColonSpace(NoAuthor, 13) == Some(13)
  {
    assert ColonSpaceAt(NoAuthor, 13);
  }

  lemma NoAuthorNoNewline()
    ensures NoNewline(NoAuthor)
  {
  }

  lemma NoAuthorSlices()
    ensures NoAuthor[0..6] == "1/2/24" && NoAuthor[8..13] == "10:30"
    ensures NoAuthor[13..13] == "" && NoAuthor[15..] == "hola"
  {
  }

  /** `1/2/24, 10:30: hola` reads as a message with an empty author. */
  lemma NoAuthorGroups()
    ensures MatchLine(NoAuthor) == Some(Groups("1/2/24", "10:30", "", "hola"))
  {
    NoAuthorDate();
    NoAuthorSep();
    NoAuthorTime();
    NoAuthorAuthorStart();
    NoAuthorColon();
    ScanLineAt(NoAuthor, 6, 8, 13, 13, 13);
    NoAuthorSlices();
    NoAuthorNoNewline();
    MatchLineScan(NoAuthor);
  }

  // ---------------------------------------------------------------------
  // Two colons: the optional colon of the decoration takes the first one,
  // so the author runs from after it to the second.

  const TwoColons: string := "1/2/24, 10:30: Juan: hola"

  lemma TwoColonsField3()
    ensures Field3End(TwoColons, 4) == Some(6)
  {
    assert Digits(TwoColons, 4, 4) == 2;
  }

  lemma TwoColonsField2()
    ensures Field2End(TwoColons, 2) == Some(6)
  {
    TwoColonsField3();
    assert Digits(TwoColons, 2, 2) == 1;
  }

  lemma TwoColonsDate()
    ensures DateStart(TwoColons) == 0 && DateEnd(TwoColons, 0) == Some(6)
  {
    TwoColonsField2();
    assert Digits(TwoColons, 0, 4) == 1;
  }

  lemma TwoColonsSep()
    ensures SepEnd(TwoColons, 6) == 8
  {
    assert SepEnd(TwoColons, 8) == 8;
  }

  lemma TwoColonsMinutes()
    ensures HourMinutesAt(TwoColons, 8) && MinutesEnd(TwoColons, 8) == 13
  {
    assert Digits(TwoColons, 8, 2) == 2 && TwoColons[10] == ':' && Digits(TwoColons, 11, 2) == 2;
  }

  lemma TwoColonsSeconds()
    ensures SecondsEnd(TwoColons, 13) == 13
  {
    assert !ColonDigitsAt(TwoColons, 13) by {
      assert Digits(TwoColons, 14, 2) == 0;
    }
  }

  lemma TwoColonsMeridiem()
    ensures MeridiemEnd(TwoColons, 13) == 13
  {
    assert !IsSpace(TwoColons[13]) && !IsMeridiemLetter(TwoColons[13]);
  }

  lemma TwoColonsTime()
    ensures TimeEnd(TwoColons, 8) == Some(13)
  {
    TwoColonsMinutes();
    TwoColonsSeconds();
    TwoColonsMeridiem();
  }

  lemma TwoColonsColon()
    ensures FirstColonSpace(TwoColons, 15) == Some(19)
  {
    assert ColonSpaceAt(TwoColons, 19);
    FirstColonSpaceSkip(TwoColons, 15, 19);
  }

  lemma TwoColonsAuthorStart()
    ensures AuthorStart(TwoColons, 13) == Some(15)
  {
    assert TwoColons[14] == ' ' && !SpaceOrDash(TwoColons[15]);
    assert SkipSpaceDash(TwoColons, 15) == 15 && SkipSpaceDash(TwoColons, 14) == 15;
    TwoColonsColon();
  }

  lemma TwoColonsNoNewline()
    ensures NoNewline(TwoColons)
  {
  }

  lemma TwoColonsSlices()
    ensures TwoColons[0..6] == "1/2/24" && TwoColons[8..13] == "10:30"
    ensures TwoColons[15..19] == "Juan" && TwoColons[21..] == "hola"
  {
  }

  /** `1/2/24, 10:30: Juan: hola` reads as a message from `Juan`: the colon
      after the time belongs to the decoration, not to the author. */
  lemma TwoColonsGroups()
    ensures MatchLine(TwoColons) == Some(Groups("1/2/24", "10:30", "Juan", "hola"))
  {
    TwoColonsDate();
    TwoColonsSep();
    TwoColonsTime();
    TwoColonsAuthorStart();
    TwoColonsColon();
    ScanLineAt(TwoColons, 6, 8, 13, 15, 19);
    TwoColonsSlices();
    TwoColonsNoNewline();
    MatchLineScan(TwoColons);
  }

  // ---------------------------------------------------------------------
  // A capital `PM`: `\.?m\.?` wants a lower-case `m`, so the marker is
  // not part of the time and ends up at the head of the author.

  const CapitalMarker: string := "12/25/24, 10:30 PM - Juan: hola"

  lemma CapitalMarkerField3()
    ensures Field3End(CapitalMarker, 6) == Some(8)
  {
    assert Digits(CapitalMarker, 6, 4) == 2;
  }

  lemma CapitalMarkerField2()
    ensures Field2End(CapitalMarker, 3) == Some(8)
  {
    CapitalMarkerField3();
    assert Digits(CapitalMarker, 3, 2) == 2;
  }

  lemma CapitalMarkerDate()
    ensures DateStart(CapitalMarker) == 0 && DateEnd(CapitalMarker, 0) == Some(8)
  {
    CapitalMarkerField2();
    assert Digits(CapitalMarker, 0, 4) == 2;
  }

  lemma CapitalMarkerSep()
    ensures SepEnd(CapitalMarker, 8) == 10
  {
    assert SepEnd(CapitalMarker, 10) == 10;
  }

  lemma CapitalMarkerMinutes()
    ensures HourMinutesAt(CapitalMarker, 10) && MinutesEnd(CapitalMarker, 10) == 15
  {
    assert Digits(CapitalMarker, 10, 2) == 2 && CapitalMarker[12] == ':' && Digits(CapitalMarker, 13, 2) == 2;
  }

  lemma CapitalMarkerSeconds()
    ensures SecondsEnd(CapitalMarker, 15) == 15
  {
    assert !ColonDigitsAt(CapitalMarker, 15) by {
      assert CapitalMarker[15] != ':';
    }
  }

  lemma CapitalMarkerMeridiem()
    ensures MeridiemEnd(CapitalMarker, 15) == 15
  {
    assert IsSpace(CapitalMarker[15]) && IsMeridiemLetter(CapitalMarker[16]);
    assert MPos(CapitalMarker, 17) == 17 && !MAt(CapitalMarker, 17);
  }

  lemma CapitalMarkerTime()
    ensures TimeEnd(CapitalMarker, 10) == Some(15)
  {
    CapitalMarkerMinutes();
    CapitalMarkerSeconds();
    CapitalMarkerMeridiem();
  }

  lemma CapitalMarkerAuthorStart()
    ensures AuthorStart(CapitalMarker, 15) == Some(16)
  {
    assert !SpaceOrDash(CapitalMarker[16]);
    assert SkipSpaceDash(CapitalMarker, 16) == 16 && SkipSpaceDash(CapitalMarker, 15) == 16;
    CapitalMarkerColon();
  }

  lemma CapitalMarkerColon()
    ensures FirstColonSpace(CapitalMarker, 16) == Some(25)
  {
    assert ColonSpaceAt(CapitalMarker, 25);
    FirstColonSpaceSkip(CapitalMarker, 16, 25);
  }

  lemma CapitalMarkerNoNewline()
    ensures NoNewline(CapitalMarker)
  {
  }

  lemma CapitalMarkerSlices()
    ensures CapitalMarker[0..8] == "12/25/24" && CapitalMarker[10..15] == "10:30"
    ensures CapitalMarker[16..25] == "PM - Juan" && CapitalMarker[27..] == "hola"
  {
  }

  /** `12/25/24, 10:30 PM - Juan: hola` reads with the time `10:30` and the author `PM - Juan`. */
  lemma CapitalMarkerGroups()
    ensures MatchLine(CapitalMarker) == Some(Groups("12/25/24", "10:30", "PM - Juan", "hola"))
  {
    CapitalMarkerDate();
    CapitalMarkerSep();
    CapitalMarkerTime();
    CapitalMarkerAuthorStart();
    CapitalMarkerColon();
    ScanLineAt(CapitalMarker, 8, 10, 15, 16, 25);
    CapitalMarkerSlices();
    CapitalMarkerNoNewline();
    MatchLineScan(CapitalMarker);
  }

  // ---------------------------------------------------------------------
  // The same line with a lower-case `pm`, which the time group takes.

  const SmallMarker: string := "12/25/24, 10:30 pm - Juan: hola"

  lemma SmallMarkerField3()
    ensures Field3End(SmallMarker, 6) == Some(8)
  {
    assert Digits(SmallMarker, 6, 4) == 2;
  }

  lemma SmallMarkerField2()
    ensures Field2End(SmallMarker, 3) == Some(8)
  {
    SmallMarkerField3();
    assert Digits(SmallMarker, 3, 2) == 2;
  }

  lemma SmallMarkerDate()
    ensures DateStart(SmallMarker) == 0 && DateEnd(SmallMarker, 0) == Some(8)
  {
    SmallMarkerField2();
    assert Digits(SmallMarker, 0, 4) == 2;
  }

  lemma SmallMarkerSep()
    ensures SepEnd(SmallMarker, 8) == 10
  {
    assert SepEnd(SmallMarker, 10) == 10;
  }

  lemma SmallMarkerMinutes()
    ensures HourMinutesAt(SmallMarker, 10) && MinutesEnd(SmallMarker, 10) == 15
  {
    assert Digits(SmallMarker, 10, 2) == 2 && SmallMarker[12] == ':' && Digits(SmallMarker, 13, 2) == 2;
  }

  lemma SmallMarkerSeconds()
    ensures SecondsEnd(SmallMarker, 15) == 15
  {
    assert !ColonDigitsAt(SmallMarker, 15) by {
      assert SmallMarker[15] != ':';
    }
  }

  lemma SmallMarkerMeridiem()
    ensures MeridiemEnd(SmallMarker, 15) == 18
  {
    assert IsSpace(SmallMarker[15]) && IsMeridiemLetter(SmallMarker[16]);
    assert MPos(SmallMarker, 17) == 17 && MAt(SmallMarker, 17) && AfterM(SmallMarker, 17) == 18;
  }

  lemma SmallMarkerTime()
    ensures TimeEnd(SmallMarker, 10) == Some(18)
  {
    SmallMarkerMinutes();
    SmallMarkerSeconds();
    SmallMarkerMeridiem();
  }

  lemma SmallMarkerAuthorStart()
    ensures AuthorStart(SmallMarker, 18) == Some(21)
  {
    assert !SpaceOrDash(SmallMarker[21]);
    assert SkipSpaceDash(SmallMarker, 21) == 21 && SkipSpaceDash(SmallMarker, 18) == 21;
    SmallMarkerColon();
  }

  lemma SmallMarkerColon()
    ensures FirstColonSpace(SmallMarker, 21) == Some(25)
  {
    assert ColonSpaceAt(SmallMarker, 25);
    FirstColonSpaceSkip(SmallMarker, 21, 25);
  }

  lemma SmallMarkerNoNewline()
    ensures NoNewline(SmallMarker)
  {
  }

  lemma SmallMarkerSlices()
    ensures SmallMarker[0..8] == "12/25/24" && SmallMarker[10..18] == "10:30 pm"
    ensures SmallMarker[21..25] == "Juan" && SmallMarker[27..] == "hola"
  {
  }

  /** `12/25/24, 10:30 pm - Juan: hola` reads with the time `10:30 pm` and the author `Juan`. */
  lemma SmallMarkerGroups()
    ensures MatchLine(SmallMarker) == Some(Groups("12/25/24", "10:30 pm", "Juan", "hola"))
  {
    SmallMarkerDate();
    SmallMarkerSep();
    SmallMarkerTime();
    SmallMarkerAuthorStart();
    SmallMarkerColon();
    ScanLineAt(SmallMarker, 8, 10, 18, 21, 25);
    SmallMarkerSlices();
    SmallMarkerNoNewline();
    MatchLineScan(SmallMarker);
  }
  // ---------------------------------------------------------------------
  // The two lines through `leer_log_whatsapp`.

  lemma MorningText()
    ensures HourMinute(Time(10, 30, 0)) == "10:30"
  {
  }

  lemma ParseMorning()
    ensures ParseTime("10:30") == Some(Time(10, 30, 0))
  {
    ParseTimeHourMinute(Time(10, 30, 0));
    MorningText();
  }

  /** With a capital `PM` the message is kept at half past ten in the
      morning, from an author called `PM - Juan`. */
  lemma CapitalMarkerMessage()
    ensures ParseLine(CapitalMarker) == Some(Message(Date(2024, 12, 25), Time(10, 30, 0), "PM - Juan", "hola"))
  {
    StripTrimmed(CapitalMarker);
    CapitalMarkerGroups();
    ParseDateChristmas();
    ParseMorning();
  }

  lemma EveningText()
    ensures ClockFront(10, 30, true) + "pm" == "10:30 pm"
  {
  }

  lemma ParseEvening()
    ensures ParseTime("10:30 pm") == Some(Time(22, 30, 0))
  {
    CleanMarkerSpellings(true);
    ParseTimeMarkerSpelling(10, 30, true, true, "pm");
    EveningText();
  }

  /** With a lower-case `pm` the message is kept at half past ten in the
      evening, from `Juan`. */
  lemma SmallMarkerMessage()
    ensures ParseLine(SmallMarker) == Some(Message(Date(2024, 12, 25), Time(22, 30, 0), "Juan", "hola"))
  {
    StripTrimmed(SmallMarker);
    SmallMarkerGroups();
    ParseDateChristmas();
    ParseEvening();
  }

  /** The line with two colons is kept as a message from `Juan` at half past
      ten in the morning of the first of February 2024. */
  lemma TwoColonsMessage()
    ensures ParseLine(TwoColons) == Some(Message(Date(2024, 2, 1), Time(10, 30, 0), "Juan", "hola"))
  {
    StripTrimmed(TwoColons);
    TwoColonsGroups();
    ParseDateFirstOfFebruary();
    ParseMorning();
  }
}
