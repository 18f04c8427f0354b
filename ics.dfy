/**
 * The iCalendar export of one month's assigned sessions: TEXT escaping after
 * section 3.3.11 of RFC 5545, the `Ymd\THis` time stamps, the ten content lines
 * of each VEVENT, the calendar header of each copy of the plugin, and the
 * document as its lines joined with CR LF (section 3.1 of RFC 5545, without
 * line folding). The current and the development copy escape TEXT values; the
 * imported copy writes them raw.
 */
module Ics {
  import opened Wrappers
  import opened Text
  import opened Calendar
  import opened Schedule
  import opened Navigation
  import opened Tables

  // ---------------------------------------------------------------------------
  // TEXT values

  /** `escape_ics` as written: four `str_replace` passes, the backslash first. */
  function EscapeIcs(text: string): string
  {
    var s1 := ReplaceAll(text, "\\", "\\\\");
    var s2 := ReplaceAll(s1, ",", "\\,");
    var s3 := ReplaceAll(s2, ";", "\\;");
    ReplaceAll(s3, "\n", "\\n")
  }

  /** The escape of one character of a TEXT value. */
  function EscapeChar(c: char): string
  {
    if c == '\\' then "\\\\"
    else if c == ',' then "\\,"
    else if c == ';' then "\\;"
    else if c == '\n' then "\\n"
    else [c]
  }

  /** Character-by-character escaping; the result never holds a line feed. */
  function Escape(s: string): (e: string)
    ensures '\n' !in e
    decreases |s|
  {
    if s == [] then [] else EscapeChar(s[0]) + Escape(s[1..])
  }

  lemma EscapeIcsAppend(a: string, b: string)
    ensures EscapeIcs(a + b) == EscapeIcs(a) + EscapeIcs(b)
  {
    ReplaceCharAppend('\\', a, b, "\\\\");
    var a1 := ReplaceAll(a, "\\", "\\\\");
    var b1 := ReplaceAll(b, "\\", "\\\\");
    ReplaceCharAppend(',', a1, b1, "\\,");
    var a2 := ReplaceAll(a1, ",", "\\,");
    var b2 := ReplaceAll(b1, ",", "\\,");
    ReplaceCharAppend(';', a2, b2, "\\;");
    var a3 := ReplaceAll(a2, ";", "\\;");
    var b3 := ReplaceAll(b2, ";", "\\;");
    ReplaceCharAppend('\n', a3, b3, "\\n");
  }

  lemma EscapeIcsChar(c: char)
    ensures EscapeIcs([c]) == EscapeChar(c)
  {
    ReplaceCharSingle('\\', c, "\\\\");
    if c == '\\' {
      ReplaceCharAbsent(',', "\\\\", "\\,");
      ReplaceCharAbsent(';', "\\\\", "\\;");
      ReplaceCharAbsent('\n', "\\\\", "\\n");
    } else if c == ',' {
      ReplaceCharSingle(',', c, "\\,");
      ReplaceCharAbsent(';', "\\,", "\\;");
      ReplaceCharAbsent('\n', "\\,", "\\n");
    } else if c == ';' {
      ReplaceCharSingle(',', c, "\\,");
      ReplaceCharSingle(';', c, "\\;");
      ReplaceCharAbsent('\n', "\\;", "\\n");
    } else {
      ReplaceCharSingle(',', c, "\\,");
      ReplaceCharSingle(';', c, "\\;");
      ReplaceCharSingle('\n', c, "\\n");
    }
  }

  /**
   * The four sequential passes escape each character on its own: a backslash the
   * first pass inserts is never escaped again by a later one.
   */
  lemma {:induction false} EscapeIcsPerCharacter(s: string)
    ensures EscapeIcs(s) == Escape(s)
    decreases |s|
  {
    if s != [] {
      assert s == [s[0]] + s[1..];
      EscapeIcsAppend([s[0]], s[1..]);
      EscapeIcsChar(s[0]);
      EscapeIcsPerCharacter(s[1..]);
    }
  }

  /** The character a backslash sequence stands for, if it is one of the TEXT escapes. */
  function Unescaped(c: char): Option<char>
  {
    if c == '\\' then Some('\\')
    else if c == ',' then Some(',')
    else if c == ';' then Some(';')
    else if c == 'n' || c == 'N' then Some('\n')
    else None
  }

  function Prepend(c: char, rest: Option<string>): Option<string>
  {
    match rest
    case None => None
    case Some(t) => Some([c] + t)
  }

  /**
   * Reads a TEXT value back, as a calendar client does; an unescaped comma,
   * semicolon or line feed, or an unknown escape, is not a TEXT value.
   */
  function Unescape(s: string): Option<string>
    decreases |s|
  {
    if s == [] then Some([])
    else if s[0] == '\\' then
      if |s| < 2 || Unescaped(s[1]).None? then None
      else Prepend(Unescaped(s[1]).value, Unescape(s[2..]))
    else if s[0] == ',' || s[0] == ';' || s[0] == '\n' then None
    else Prepend(s[0], Unescape(s[1..]))
  }

  lemma UnescapeStep(c: char, e: string)
    ensures Unescape(EscapeChar(c) + e) == Prepend(c, Unescape(e))
  {
    var s := EscapeChar(c) + e;
    if c == '\\' || c == ',' || c == ';' || c == '\n' {
      assert s[0] == '\\' && s[2..] == e;
    } else {
      assert s[0] == c && s[1..] == e;
    }
  }

  /** Every escaped value reads back as the original text. */
  lemma {:induction false} UnescapeEscape(s: string)
    ensures Unescape(Escape(s)) == Some(s)
    decreases |s|
  {
    if s != [] {
      UnescapeStep(s[0], Escape(s[1..]));
      UnescapeEscape(s[1..]);
      assert [s[0]] + s[1..] == s;
    }
  }

  /** An unescaped comma makes a text without backslashes no TEXT value. */
  lemma {:induction false} UnescapeBareComma(s: string)
    requires '\\' !in s && ',' in s
    ensures Unescape(s) == None
    decreases |s|
  {
    if s[0] != ',' && s[0] != ';' && s[0] != '\n' {
      assert s == [s[0]] + s[1..];
      assert '\\' !in s[1..] && ',' in s[1..];
      UnescapeBareComma(s[1..]);
    }
  }

  // ---------------------------------------------------------------------------
  // Dates and times

  /** A number below 100 in two digits, as `date` writes months, days, hours, minutes and seconds. */
  function Two(n: nat): (s: string)
    requires n < 100
    ensures |s| == 2 && AllDigits(s) && DigitsValue(s) == n
  {
    var s := [DigitChar(n / 10), DigitChar(n % 10)];
    assert DigitValue(s[0]) == n / 10 && DigitValue(s[1]) == n % 10;
    assert s[..1][..0] == [] && DigitsValue(s[..1]) == n / 10;
    s
  }

  /** `His` of a time of day. */
  function Clock(t: TimeOfDay): (s: string)
    ensures |s| == 6 && AllDigits(s)
  {
    Two(t / 3600) + Two(t % 3600 / 60) + Two(t % 60)
  }

  /** `Ymd` of a date; the year takes at least four digits. */
  function DateDigits(d: Date): (s: string)
    requires ValidDate(d)
    ensures AllDigits(s)
  {
    Padded(d.year, 4) + Two(d.month) + Two(d.day)
  }

  /** `gmdate('Ymd\THis')` of a date and a time of day. */
  function Stamp(d: Date, t: TimeOfDay): string
    requires ValidDate(d)
  {
    DateDigits(d) + "T" + Clock(t)
  }

  /** The `Y-m-d` text of the `date` column as the query returns it. */
  function DateText(d: Date): string
    requires ValidDate(d)
  {
    Padded(d.year, 4) + "-" + Two(d.month) + "-" + Two(d.day)
  }

  /** Two concatenations whose first parts are equally long agree part by part. */
  lemma SplitEqual(a1: string, b1: string, a2: string, b2: string)
    requires |a1| == |a2| && a1 + b1 == a2 + b2
    ensures a1 == a2 && b1 == b2
  {
    assert a1 == (a1 + b1)[..|a1|] && a2 == (a2 + b2)[..|a2|];
    assert b1 == (a1 + b1)[|a1|..] && b2 == (a2 + b2)[|a2|..];
  }

  lemma FourDigitYear(y: nat)
    requires y < 10000
    ensures |Padded(y, 4)| == 4 && DigitsValue(Padded(y, 4)) == y
  {
    assert Pow10(4) == 10000;
    PaddedValue(y, 4);
  }

  /** Different times of day never share their `His` text. */
  lemma ClockInjective(t1: TimeOfDay, t2: TimeOfDay)
    requires Clock(t1) == Clock(t2)
    ensures t1 == t2
  {
    SplitEqual(Two(t1 / 3600) + Two(t1 % 3600 / 60), Two(t1 % 60), Two(t2 / 3600) + Two(t2 % 3600 / 60), Two(t2 % 60));
    SplitEqual(Two(t1 / 3600), Two(t1 % 3600 / 60), Two(t2 / 3600), Two(t2 % 3600 / 60));
    TimeFields(t1);
    TimeFields(t2);
  }

  /** A time of day is its hours, minutes and seconds. */
  lemma TimeFields(t: TimeOfDay)
    ensures t == 3600 * (t / 3600) + 60 * (t % 3600 / 60) + t % 60
  {
    var r := t % 3600;
    assert t == 3600 * (t / 3600) + r;
    assert r == 60 * (r / 60) + r % 60;
    assert r % 60 == t % 60;
  }

  /** Different dates in years below 10000 never share their `Ymd` text. */
  lemma DateDigitsInjective(d1: Date, d2: Date)
    requires ValidDate(d1) && d1.year < 10000 && ValidDate(d2) && d2.year < 10000
    requires DateDigits(d1) == DateDigits(d2)
    ensures d1 == d2
  {
    FourDigitYear(d1.year);
    FourDigitYear(d2.year);
    SplitEqual(Padded(d1.year, 4) + Two(d1.month), Two(d1.day), Padded(d2.year, 4) + Two(d2.month), Two(d2.day));
    SplitEqual(Padded(d1.year, 4), Two(d1.month), Padded(d2.year, 4), Two(d2.month));
  }

  /** Different moments (in years below 10000) never share a stamp. */
  lemma StampInjective(d1: Date, t1: TimeOfDay, d2: Date, t2: TimeOfDay)
    requires ValidDate(d1) && d1.year < 10000 && ValidDate(d2) && d2.year < 10000
    requires Stamp(d1, t1) == Stamp(d2, t2)
    ensures d1 == d2 && t1 == t2
  {
    FourDigitYear(d1.year);
    FourDigitYear(d2.year);
    SplitEqual(DateDigits(d1) + "T", Clock(t1), DateDigits(d2) + "T", Clock(t2));
    SplitEqual(DateDigits(d1), "T", DateDigits(d2), "T");
    DateDigitsInjective(d1, d2);
    ClockInjective(t1, t2);
  }

  /** Seconds since the start of the calendar. */
  function Moment(d: Date, t: TimeOfDay): int
    requires 1 <= d.month <= 12
  {
    DayNumber(d) * 86400 + t
  }

  /**
   * DTEND's date and time: the stored end time on the session's date, or two
   * hours after the start when no end time is stored, rolling past midnight into
   * the next day.
   */
  function EndOf(s: Session): (e: (Date, TimeOfDay))
    requires ValidDate(s.date)
    ensures ValidDate(e.0)
  {
    match s.endTime
    case Some(t) => (s.date, t)
    case None =>
      if s.time + 7200 < 86400 then (s.date, s.time + 7200)
      else (NextDay(s.date), s.time + 7200 - 86400)
  }

  /** Without a stored end time the event lasts exactly two hours; with one it ends on the start's date. */
  lemma EndTwoHoursLater(s: Session)
    requires ValidDate(s.date)
    ensures s.endTime.None? ==> Moment(EndOf(s).0, EndOf(s).1) == Moment(s.date, s.time) + 7200
    ensures s.endTime.Some? ==> EndOf(s) == (s.date, s.endTime.value)
  {
  }

  // ---------------------------------------------------------------------------
  // Content lines

  /** The display name of the assigned trainer, or "Unknown" when there is no such user. */
  function TrainerName(users: map<nat, string>, trainer: Option<nat>): string
  {
    if trainer.Some? && trainer.value in users then users[trainer.value] else "Unknown"
  }

  /** The event UID: `id-date@training-planner` in the current copies, `date-id@trainingsplanung` in the imported one. */
  function Uid(copy: Copy, s: Session): string
    requires ValidDate(s.date)
  {
    if copy == Import then DateText(s.date) + "-" + Decimal(s.id) + "@trainingsplanung"
    else Decimal(s.id) + "-" + DateText(s.date) + "@training-planner"
  }

  /** A TEXT property value: escaped in the current copies, raw in the imported one. */
  function Field(copy: Copy, text: string): string
  {
    if copy == Import then text else EscapeIcs(text)
  }

  /** A clock reading as the export's DTSTAMP shows it. */
  type Instant = now: (Date, TimeOfDay) | ValidDate(now.0) witness (Date(1, 1, 1), 0)

  /** The property values of one VEVENT. */
  datatype Event = Event(uid: string, stamp: string, start: string, end: string,
                         summary: string, description: string, location: string)

  /** The values the export writes for one session row. */
  function EventOf(copy: Copy, s: Session, users: map<nat, string>, now: Instant): Event
    requires ValidDate(s.date)
  {
    var end := EndOf(s);
    Event(Uid(copy, s), Stamp(now.0, now.1), Stamp(s.date, s.time), Stamp(end.0, end.1),
          Field(copy, "Training: " + TrainerName(users, s.trainer)),
          Field(copy, "Thema: " + s.topic),
          Field(copy, s.location))
  }

  /** The ten content lines of a VEVENT. */
  function VEvent(e: Event): (lines: seq<string>)
    ensures |lines| == 10 && lines[0] == "BEGIN:VEVENT" && lines[9] == "END:VEVENT"
  {
    ["BEGIN:VEVENT",
     "UID:" + e.uid,
     "DTSTAMP:" + e.stamp + "Z",
     "DTSTART;TZID=Europe/Berlin:" + e.start,
     "DTEND;TZID=Europe/Berlin:" + e.end,
     "SUMMARY:" + e.summary,
     "DESCRIPTION:" + e.description,
     "LOCATION:" + e.location,
     "STATUS:CONFIRMED",
     "END:VEVENT"]
  }

  /** The opening lines of the calendar in the current and the development copy. */
  const Preamble: seq<string> :=
    ["BEGIN:VCALENDAR", "VERSION:2.0", "PRODID:-//Training Planner//DE", "METHOD:PUBLISH", "CALSCALE:GREGORIAN"]

  /** Summer time in Europe/Berlin: UTC+2 from the last Sunday of March. */
  const Daylight: seq<string> :=
    ["BEGIN:DAYLIGHT", "TZOFFSETFROM:+0100", "TZOFFSETTO:+0200", "TZNAME:CEST",
     "DTSTART:19700329T020000", "RRULE:FREQ=YEARLY;BYMONTH=3;BYDAY=-1SU", "END:DAYLIGHT"]

  /** Standard time in Europe/Berlin: UTC+1 from the last Sunday of October. */
  const Standard: seq<string> :=
    ["BEGIN:STANDARD", "TZOFFSETFROM:+0200", "TZOFFSETTO:+0100", "TZNAME:CET",
     "DTSTART:19701025T030000", "RRULE:FREQ=YEARLY;BYMONTH=10;BYDAY=-1SU", "END:STANDARD"]

  /** The imported copy's header, with an empty VTIMEZONE. */
  const ImportHeader: seq<string> :=
    ["BEGIN:VCALENDAR", "VERSION:2.0", "PRODID:-//Trainingsplanung//DE", "METHOD:PUBLISH",
     "BEGIN:VTIMEZONE", "TZID:Europe/Berlin", "END:VTIMEZONE"]

  /**
   * The lines before the first event: a full Europe/Berlin VTIMEZONE in the
   * current copy, none in the development copy, an empty one in the imported copy.
   */
  function Header(copy: Copy): (lines: seq<string>)
    ensures |lines| >= 5 && lines[0] == "BEGIN:VCALENDAR" && lines[1] == "VERSION:2.0"
  {
    match copy
    case Target => Preamble + ["BEGIN:VTIMEZONE", "TZID:Europe/Berlin"] + Daylight + Standard + ["END:VTIMEZONE"]
    case Source => Preamble
    case Import => ImportHeader
  }

  predicate ValidDates(rows: seq<Session>)
  {
    forall i :: 0 <= i < |rows| ==> ValidDate(rows[i].date)
  }

  /** The blocks concatenated in order. */
  function Concat<T>(blocks: seq<seq<T>>): seq<T>
    decreases |blocks|
  {
    if blocks == [] then [] else Concat(blocks[..|blocks| - 1]) + blocks[|blocks| - 1]
  }

  lemma {:induction false} ConcatLength<T>(blocks: seq<seq<T>>)
    requires forall b :: 0 <= b < |blocks| ==> |blocks[b]| == 10
    ensures |Concat(blocks)| == 10 * |blocks|
    decreases |blocks|
  {
    if blocks != [] {
      ConcatLength(blocks[..|blocks| - 1]);
    }
  }

  /** Blocks of ten lines each: block k occupies places 10k to 10k + 9. */
  lemma {:induction false} ConcatIndex<T>(blocks: seq<seq<T>>, k: nat, j: nat)
    requires forall b :: 0 <= b < |blocks| ==> |blocks[b]| == 10
    requires k < |blocks| && j < 10
    ensures |Concat(blocks)| == 10 * |blocks| && Concat(blocks)[10 * k + j] == blocks[k][j]
    decreases |blocks|
  {
    var init := blocks[..|blocks| - 1];
    ConcatLength(init);
    if k < |blocks| - 1 {
      ConcatIndex(init, k, j);
    }
  }

  lemma {:induction false} ConcatNoLf(blocks: seq<seq<string>>)
    requires forall b :: 0 <= b < |blocks| ==> NoLf(blocks[b])
    ensures NoLf(Concat(blocks))
    decreases |blocks|
  {
    if blocks != [] {
      var init := blocks[..|blocks| - 1];
      ConcatNoLf(init);
      NoLfAppend(Concat(init), blocks[|blocks| - 1]);
    }
  }

  lemma ConcatPrefix<T>(blocks: seq<seq<T>>, i: nat)
    requires i < |blocks|
    ensures Concat(blocks[..i + 1]) == Concat(blocks[..i]) + blocks[i]
  {
    assert blocks[..i + 1][..i] == blocks[..i];
  }

  /** One VEVENT per row, in row order. */
  function Blocks(copy: Copy, rows: seq<Session>, users: map<nat, string>, now: Instant): (r: seq<seq<string>>)
    requires ValidDates(rows)
    ensures |r| == |rows| && forall k :: 0 <= k < |r| ==> |r[k]| == 10
  {
    seq(|rows|, k requires 0 <= k < |rows| => VEvent(EventOf(copy, rows[k], users, now)))
  }

  /** The content lines of the export: the header, the events and the closing line. */
  function Lines(copy: Copy, rows: seq<Session>, users: map<nat, string>, now: Instant): seq<string>
    requires ValidDates(rows)
  {
    Header(copy) + Concat(Blocks(copy, rows, users, now)) + ["END:VCALENDAR"]
  }

  /** `implode("\r\n", $ics_content)`. */
  function Document(copy: Copy, rows: seq<Session>, users: map<nat, string>, now: Instant): string
    requires ValidDates(rows)
  {
    Join(Lines(copy, rows, users, now), Crlf)
  }

  /** The export handler's loop over the query rows; `now` is the clock reading DTSTAMP shows. */
  method ExportIcs(copy: Copy, rows: seq<Session>, users: map<nat, string>, now: Instant) returns (doc: string)
    requires ValidDates(rows)
    ensures doc == Document(copy, rows, users, now)
  {
    var head := Header(copy);
    ghost var blocks := Blocks(copy, rows, users, now);
    var events := [];
    var i := 0;
    while i < |rows|
      invariant 0 <= i <= |rows|
      invariant events == Concat(blocks[..i])
    {
      ConcatPrefix(blocks, i);
      events := events + VEvent(EventOf(copy, rows[i], users, now));
      i := i + 1;
    }
    assert blocks[..|rows|] == blocks;
    doc := Join(head + events + ["END:VCALENDAR"], Crlf);
  }

  // ---------------------------------------------------------------------------
  // Structure of the document

  /** The document's lines: the header, ten lines per row in row order, and the closing line. */
  lemma EventBlock(copy: Copy, rows: seq<Session>, users: map<nat, string>, now: Instant, k: nat, j: nat)
    requires ValidDates(rows) && k < |rows| && j < 10
    ensures var lines := Lines(copy, rows, users, now);
      |lines| == |Header(copy)| + 10 * |rows| + 1 &&
      lines[|Header(copy)| + 10 * k + j] == VEvent(EventOf(copy, rows[k], users, now))[j] &&
      lines[|lines| - 1] == "END:VCALENDAR"
  {
    var h := Header(copy);
    var blocks := Blocks(copy, rows, users, now);
    var e := Concat(blocks);
    ConcatIndex(blocks, k, j);
    assert (h + e + ["END:VCALENDAR"])[|h| + 10 * k + j] == e[10 * k + j];
  }

  lemma DigitsNoLf(s: string)
    requires AllDigits(s)
    ensures '\n' !in s
  {
    forall i | 0 <= i < |s| ensures s[i] != '\n' {
      assert IsDigit(s[i]);
    }
  }

  lemma StampNoLf(d: Date, t: TimeOfDay)
    requires ValidDate(d)
    ensures '\n' !in Stamp(d, t)
  {
    DigitsNoLf(DateDigits(d));
    DigitsNoLf(Clock(t));
  }

  lemma UidNoLf(copy: Copy, s: Session)
    requires ValidDate(s.date)
    ensures '\n' !in Uid(copy, s)
  {
    DigitsNoLf(Decimal(s.id));
    DigitsNoLf(Padded(s.date.year, 4));
    DigitsNoLf(Two(s.date.month));
    DigitsNoLf(Two(s.date.day));
  }

  lemma FieldNoLf(copy: Copy, text: string)
    requires copy != Import
    ensures '\n' !in Field(copy, text)
  {
    EscapeIcsPerCharacter(text);
  }

  /** No property value of the event holds a line feed. */
  predicate PlainValues(e: Event)
  {
    '\n' !in e.uid && '\n' !in e.stamp && '\n' !in e.start && '\n' !in e.end &&
    '\n' !in e.summary && '\n' !in e.description && '\n' !in e.location
  }

  /** In the escaping copies no value the export writes holds a line feed, whatever the stored texts are. */
  lemma EventOfPlain(copy: Copy, s: Session, users: map<nat, string>, now: Instant)
    requires copy != Import && ValidDate(s.date)
    ensures PlainValues(EventOf(copy, s, users, now))
  {
    var end := EndOf(s);
    UidNoLf(copy, s);
    StampNoLf(now.0, now.1);
    StampNoLf(s.date, s.time);
    StampNoLf(end.0, end.1);
    FieldNoLf(copy, "Training: " + TrainerName(users, s.trainer));
    FieldNoLf(copy, "Thema: " + s.topic);
    FieldNoLf(copy, s.location);
  }

  /** A VEVENT whose values hold no line feed has no line that does. */
  lemma VEventNoLf(e: Event)
    requires PlainValues(e)
    ensures NoLf(VEvent(e))
  {
    var lines := VEvent(e);
    forall i | 0 <= i < 10 ensures '\n' !in lines[i] {
    }
  }

  /** No line of any copy's header, nor the closing line, holds a line feed. */
  lemma HeaderNoLf(copy: Copy)
    ensures NoLf(Header(copy)) && NoLf(["END:VCALENDAR"])
  {
    var lines := Header(copy);
    forall i | 0 <= i < |lines| ensures '\n' !in lines[i] {
    }
  }

  /**
   * In the escaping copies, cutting the document at CR LF gives back exactly the
   * lines it was built from, whatever the names, topics and locations hold.
   */
  lemma DocumentLines(copy: Copy, rows: seq<Session>, users: map<nat, string>, now: Instant)
    requires copy != Import && ValidDates(rows)
    ensures SplitCrlf(Document(copy, rows, users, now)) == Lines(copy, rows, users, now)
  {
    var blocks := Blocks(copy, rows, users, now);
    forall k | 0 <= k < |blocks| ensures NoLf(blocks[k]) {
      EventOfPlain(copy, rows[k], users, now);
      VEventNoLf(EventOf(copy, rows[k], users, now));
    }
    ConcatNoLf(blocks);
    HeaderNoLf(copy);
    var h := Header(copy);
    var e := Concat(blocks);
    NoLfAppend(h, e);
    NoLfAppend(h + e, ["END:VCALENDAR"]);
    SplitJoin(h + e + ["END:VCALENDAR"]);
  }

  /** An escaped value reads back as the text that was escaped. */
  lemma FieldRecoverable(copy: Copy, text: string)
    requires copy != Import
    ensures Unescape(Field(copy, text)) == Some(text)
  {
    EscapeIcsPerCharacter(text);
    UnescapeEscape(text);
  }

  /** In the escaping copies the SUMMARY value reads back as the text that was escaped. */
  lemma SummaryRecoverable(copy: Copy, s: Session, users: map<nat, string>, now: Instant)
    requires copy != Import && ValidDate(s.date)
    ensures var line := VEvent(EventOf(copy, s, users, now))[5];
      |"SUMMARY:"| <= |line| && line[..8] == "SUMMARY:" &&
      Unescape(line[8..]) == Some("Training: " + TrainerName(users, s.trainer))
  {
    FieldRecoverable(copy, "Training: " + TrainerName(users, s.trainer));
    SummaryLine(EventOf(copy, s, users, now));
  }

  lemma SummaryLine(e: Event)
    ensures var line := VEvent(e)[5];
      |"SUMMARY:"| <= |line| && line[..8] == "SUMMARY:" && line[8..] == e.summary
  {
  }

  lemma Regroup(p: string, a: string, c: string, b: string)
    ensures p + (a + c + b) == (p + a) + c + b
  {
  }

  /** A DESCRIPTION value holding CR LF is cut into two lines at it. */
  lemma DescriptionBreaks(e: Event, a: string, b: string)
    requires e.description == "Thema: " + (a + Crlf + b) && '\n' !in a
    ensures var pieces := SplitCrlf(VEvent(e)[6]);
      |pieces| >= 2 && pieces[0] == "DESCRIPTION:" + "Thema: " + a
  {
    assert VEvent(e)[6] == "DESCRIPTION:" + e.description;
    Regroup("Thema: ", a, Crlf, b);
    Regroup("DESCRIPTION:", "Thema: " + a, Crlf, b);
    SplitAfterLine("DESCRIPTION:" + ("Thema: " + a), b);
    Regroup("DESCRIPTION:", "Thema: ", a, []);
  }

  /** In the imported copy a CR LF in a topic cuts the DESCRIPTION line in two. */
  lemma ImportTopicBreaksLine(s: Session, users: map<nat, string>, now: Instant, a: string, b: string)
    requires ValidDate(s.date) && s.topic == a + Crlf + b && '\n' !in a
    ensures var pieces := SplitCrlf(VEvent(EventOf(Import, s, users, now))[6]);
      |pieces| >= 2 && pieces[0] == "DESCRIPTION:" + "Thema: " + a
  {
    DescriptionBreaks(EventOf(Import, s, users, now), a, b);
  }

  /** In the imported copy a comma in a trainer's name makes SUMMARY no TEXT value at all. */
  lemma ImportSummaryUnreadable(s: Session, users: map<nat, string>, now: Instant)
    requires ValidDate(s.date) && s.trainer.Some? && s.trainer.value in users
    requires ',' in users[s.trainer.value] && '\\' !in users[s.trainer.value]
    ensures var line := VEvent(EventOf(Import, s, users, now))[5];
      |"SUMMARY:"| <= |line| && Unescape(line[8..]) == None
  {
    UnescapeBareComma("Training: " + users[s.trainer.value]);
    SummaryLine(EventOf(Import, s, users, now));
  }

  lemma LocationLine(e: Event)
    ensures var line := VEvent(e)[7];
      |"LOCATION:"| <= |line| && line[..9] == "LOCATION:" && line[9..] == e.location
  {
  }

  /** In the escaping copies the LOCATION value reads back as the session's venue. */
  lemma LocationRecoverable(copy: Copy, s: Session, users: map<nat, string>, now: Instant)
    requires copy != Import && ValidDate(s.date)
    ensures var line := VEvent(EventOf(copy, s, users, now))[7];
      |"LOCATION:"| <= |line| && line[..9] == "LOCATION:" && Unescape(line[9..]) == Some(s.location)
  {
    FieldRecoverable(copy, s.location);
    LocationLine(EventOf(copy, s, users, now));
  }

  /**
   * In the imported copy the venue every generated session carries, with its
   * comma, makes LOCATION no TEXT value at all.
   */
  lemma ImportLocationUnreadable(s: Session, users: map<nat, string>, now: Instant)
    requires ValidDate(s.date) && s.location == DefaultLocation
    ensures var line := VEvent(EventOf(Import, s, users, now))[7];
      |"LOCATION:"| <= |line| && line[..9] == "LOCATION:" && Unescape(line[9..]) == None
  {
    assert DefaultLocation[20] == ',';
    UnescapeBareComma(DefaultLocation);
    LocationLine(EventOf(Import, s, users, now));
  }

  // ---------------------------------------------------------------------------
  // UIDs

  /** Two strings that both start with a run of digits followed by the same non-digit share that run. */
  lemma LeadingNumber(d1: string, r1: string, d2: string, r2: string)
    requires AllDigits(d1) && AllDigits(d2) && r1 != [] && r2 != [] && !IsDigit(r1[0]) && !IsDigit(r2[0])
    requires d1 + r1 == d2 + r2
    ensures d1 == d2
  {
    var s := d1 + r1;
    assert s[|d1|] == r1[0];
    assert |d2| < |s| ==> s[|d2|] == r2[0];
    assert forall i :: 0 <= i < |d1| ==> s[i] == d1[i];
    assert forall i :: 0 <= i < |d2| ==> s[i] == d2[i];
    assert |d1| == |d2|;
    assert s[..|d1|] == d1 && s[..|d2|] == d2;
  }

  /** The current copies' UIDs tell sessions apart by id. */
  lemma UidDeterminesId(copy: Copy, a: Session, b: Session)
    requires copy != Import && ValidDate(a.date) && ValidDate(b.date) && Uid(copy, a) == Uid(copy, b)
    ensures a.id == b.id
  {
    var at := "@training-planner";
    Associative(Decimal(a.id) + "-", DateText(a.date), at);
    Associative(Decimal(a.id), "-", DateText(a.date) + at);
    Associative(Decimal(b.id) + "-", DateText(b.date), at);
    Associative(Decimal(b.id), "-", DateText(b.date) + at);
    LeadingNumber(Decimal(a.id), "-" + (DateText(a.date) + at), Decimal(b.id), "-" + (DateText(b.date) + at));
    DecimalInjective(a.id, b.id);
  }

  /** The imported copy's UIDs tell sessions apart by id too, as long as years have four digits. */
  lemma ImportUidDeterminesId(a: Session, b: Session)
    requires ValidDate(a.date) && a.date.year < 10000 && ValidDate(b.date) && b.date.year < 10000
    requires Uid(Import, a) == Uid(Import, b)
    ensures a.id == b.id
  {
    FourDigitYear(a.date.year);
    FourDigitYear(b.date.year);
    var at := "@trainingsplanung";
    Associative(DateText(a.date) + "-", Decimal(a.id), at);
    Associative(DateText(b.date) + "-", Decimal(b.id), at);
    SplitEqual(DateText(a.date) + "-", Decimal(a.id) + at, DateText(b.date) + "-", Decimal(b.id) + at);
    LeadingNumber(Decimal(a.id), at, Decimal(b.id), at);
    DecimalInjective(a.id, b.id);
  }

  // ---------------------------------------------------------------------------
  // The query

  /** `YEAR(date) = y AND MONTH(date) = m AND assigned_trainer_id IS NOT NULL`. */
  predicate Exported(s: Session, ym: YearMonth)
  {
    InMonth(s, ym) && s.trainer.Some?
  }

  /** The rows the export query selects, in table order. */
  function Selected(sessions: seq<Session>, ym: YearMonth): (r: seq<Session>)
    ensures forall s :: s in r <==> s in sessions && Exported(s, ym)
    decreases |sessions|
  {
    if sessions == [] then []
    else (if Exported(sessions[0], ym) then [sessions[0]] else []) + Selected(sessions[1..], ym)
  }

  /** `ORDER BY date, time`. */
  predicate NotAfter(a: Session, b: Session)
  {
    a.date.year < b.date.year ||
    (a.date.year == b.date.year && (a.date.month < b.date.month ||
      (a.date.month == b.date.month && (a.date.day < b.date.day ||
        (a.date.day == b.date.day && a.time <= b.time)))))
  }

  predicate ByDateTime(rows: seq<Session>)
  {
    forall i, j :: 0 <= i < j < |rows| ==> NotAfter(rows[i], rows[j])
  }

  /**
   * What the query may return: the selected rows in some order, sorted by date
   * and time in the current copies; the imported copy's query has no ORDER BY.
   */
  predicate QueryResult(copy: Copy, sessions: seq<Session>, ym: YearMonth, rows: seq<Session>)
  {
    multiset(rows) == multiset(Selected(sessions, ym)) && (copy != Import ==> ByDateTime(rows))
  }

  /**
   * The exported calendar holds one event per assigned session of the month and
   * nothing else: event k is the k-th query row, which is such a session, and
   * every such session is one of the rows.
   */
  lemma ExportCoversMonth(copy: Copy, sessions: seq<Session>, ym: YearMonth, rows: seq<Session>,
                          users: map<nat, string>, now: Instant)
    requires QueryResult(copy, sessions, ym, rows) && ValidDates(rows)
    ensures |Lines(copy, rows, users, now)| == |Header(copy)| + 10 * |Selected(sessions, ym)| + 1
    ensures forall k :: 0 <= k < |rows| ==> rows[k] in sessions && Exported(rows[k], ym)
    ensures forall s :: s in sessions && Exported(s, ym) ==> s in rows
  {
    assert |rows| == |multiset(rows)| == |multiset(Selected(sessions, ym))| == |Selected(sessions, ym)|;
    ConcatLength(Blocks(copy, rows, users, now));
    forall k | 0 <= k < |rows| ensures rows[k] in sessions && Exported(rows[k], ym) {
      assert rows[k] in multiset(rows);
    }
    forall s | s in sessions && Exported(s, ym) ensures s in rows {
      assert s in multiset(Selected(sessions, ym));
    }
  }
}
