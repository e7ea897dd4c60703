/**
 The native calendar vocabulary and its translation to systemd `OnCalendar=`.
 What a spec means and what an expression matches are each given as a set of
 instants, independently of the translation.
 */
module Calendar {
  import opened Basics
  import opened Text

  // ---------------------------------------------------------------------------
  // Cadences and the instants they fire at

  datatype Clock = Clock(hour: nat, minute: nat)

  datatype Cadence =
    | Hourly
    | Daily(at: Clock)
    | Weekly(day: nat, at: Clock)
    | Monthly(dom: nat, at: Clock)

  /** `weekday` counts from Monday as 0. */
  datatype Instant = Instant(weekday: nat, dom: nat, hour: nat, minute: nat, second: nat)

  predicate IsInstant(i: Instant) {
    i.weekday < 7 && 1 <= i.dom <= 31 && i.hour < 24 && i.minute < 60 && i.second < 60
  }

  predicate IsClock(c: Clock) {
    c.hour < 24 && c.minute < 60
  }

  predicate IsCadence(c: Cadence) {
    && (c.Hourly? || IsClock(c.at))
    && (c.Weekly? ==> c.day < 7)
    && (c.Monthly? ==> 1 <= c.dom <= 31)
  }

  predicate AtClock(c: Clock, i: Instant) {
    i.hour == c.hour && i.minute == c.minute && i.second == 0
  }

  /** When a cadence fires. */
  predicate Fires(c: Cadence, i: Instant) {
    match c
    case Hourly => i.minute == 0 && i.second == 0
    case Daily(at) => AtClock(at, i)
    case Weekly(day, at) => i.weekday == day && AtClock(at, i)
    case Monthly(dom, at) => i.dom == dom && AtClock(at, i)
  }

  // ---------------------------------------------------------------------------
  // The translation

  datatype Error = Empty | Arity | UnknownCadence | NotATime | BadHour | BadMinute | BadDay | BadDom

  /** `parse_hh_mm`: the first colon splits, each side is a `u8`. */
  function ParseClock(text: string): Result<Clock, Error> {
    var k := Find(text, IsColon);
    if k == |text| then Err(NotATime)
    else
      match ParseUint(text[..k], 255)
      case None => Err(BadHour)
      case Some(hour) =>
        match ParseUint(text[k + 1..], 255)
        case None => Err(BadMinute)
        case Some(minute) =>
          if hour > 23 then Err(BadHour)
          else if minute > 59 then Err(BadMinute)
          else Ok(Clock(hour, minute))
  }

  /** systemd's name for each weekday. */
  function DayName(day: nat): (r: string)
    requires day < 7
  {
    ["Mon", "Tue", "Wed", "Thu", "Fri", "Sat", "Sun"][day]
  }

  function ParseDow(text: string): Result<string, Error> {
    var t := Lower(text);
    if t == "mon" || t == "monday" then Ok("Mon")
    else if t == "tue" || t == "tuesday" then Ok("Tue")
    else if t == "wed" || t == "wednesday" then Ok("Wed")
    else if t == "thu" || t == "thursday" then Ok("Thu")
    else if t == "fri" || t == "friday" then Ok("Fri")
    else if t == "sat" || t == "saturday" then Ok("Sat")
    else if t == "sun" || t == "sunday" then Ok("Sun")
    else Err(BadDay)
  }

  function ParseDom(text: string): Result<nat, Error> {
    match ParseUint(text, 255)
    case None => Err(BadDom)
    case Some(day) => if 1 <= day <= 31 then Ok(day) else Err(BadDom)
  }

  /** `{:02}`: at least two digits. */
  function Pad2(n: nat): string {
    if n < 10 then "0" + Decimal(n) else Decimal(n)
  }

  /** `HH:MM:00`. */
  function Time(c: Clock): string {
    Pad2(c.hour) + ":" + Pad2(c.minute) + ":00"
  }

  const HOURLY: string := "*-*-* *:00:00"

  function TranslateWords(tokens: seq<string>): Result<string, Error> {
    if tokens == [] then Err(Empty)
    else
      var cadence := Lower(tokens[0]);
      if cadence == "hourly" then
        if |tokens| != 1 then Err(Arity) else Ok(HOURLY)
      else if cadence == "daily" then
        if |tokens| != 2 then Err(Arity)
        else
          match ParseClock(tokens[1])
          case Err(e) => Err(e)
          case Ok(c) => Ok("*-*-* " + Time(c))
      else if cadence == "weekly" then
        if |tokens| != 3 then Err(Arity)
        else
          match ParseDow(tokens[1])
          case Err(e) => Err(e)
          case Ok(dow) =>
            match ParseClock(tokens[2])
            case Err(e) => Err(e)
            case Ok(c) => Ok(dow + " *-*-* " + Time(c))
      else if cadence == "monthly" then
        if |tokens| != 3 then Err(Arity)
        else
          match ParseDom(tokens[1])
          case Err(e) => Err(e)
          case Ok(day) =>
            match ParseClock(tokens[2])
            case Err(e) => Err(e)
            case Ok(c) => Ok("*-*-" + Pad2(day) + " " + Time(c))
      else Err(UnknownCadence)
  }

  /** `to_on_calendar`. */
  function ToOnCalendar(spec: string): Result<string, Error> {
    TranslateWords(Words(spec, IsWhite))
  }

  // ---------------------------------------------------------------------------
  // What a spec means: a relation between its words and a cadence

  /** `text` is `n` in digits, with any number of leading zeros and maybe a plus sign. */
  ghost predicate Numeral(text: string, n: nat) {
    var t := if text != [] && text[0] == '+' then text[1..] else text;
    t != [] && (forall c :: c in t ==> IsDigit(c)) && Value(t) == n
  }

  ghost predicate ClockText(text: string, c: Clock) {
    IsClock(c) && exists h: string, m: string :: text == h + ":" + m && Numeral(h, c.hour) && Numeral(m, c.minute)
  }

  /** The full name of each weekday; its first three letters are its short name. */
  function DayFull(day: nat): string
    requires day < 7
  {
    ["monday", "tuesday", "wednesday", "thursday", "friday", "saturday", "sunday"][day]
  }

  ghost predicate DayText(text: string, day: nat) {
    day < 7 && (Lower(text) == DayFull(day) || Lower(text) == DayFull(day)[..3])
  }

  ghost predicate Denotes(tokens: seq<string>, c: Cadence) {
    match c
    case Hourly => |tokens| == 1 && Lower(tokens[0]) == "hourly"
    case Daily(at) => |tokens| == 2 && Lower(tokens[0]) == "daily" && ClockText(tokens[1], at)
    case Weekly(day, at) =>
      |tokens| == 3 && Lower(tokens[0]) == "weekly" && DayText(tokens[1], day) && ClockText(tokens[2], at)
    case Monthly(dom, at) =>
      |tokens| == 3 && Lower(tokens[0]) == "monthly" && Numeral(tokens[1], dom) && 1 <= dom <= 31 && ClockText(tokens[2], at)
  }

  ghost predicate Means(spec: string, c: Cadence) {
    Denotes(Words(spec, IsWhite), c)
  }

  // ---------------------------------------------------------------------------
  // What an expression matches: systemd.time(7), "Calendar Events"

  /** A field of an expression: any value, or one number in digits. */
  ghost predicate FieldMatches(field: string, n: nat) {
    field == "*" || (Numeral(field, n) && field[0] != '+')
  }

  /** `[DOW ]YEAR-MONTH-DOM HOUR:MINUTE:SECOND`, on a year and month left open. */
  ghost predicate Matches(expr: string, i: Instant) {
    var words := Words(expr, IsWhite);
    var date := if |words| == 3 then words[1] else if |words| == 2 then words[0] else [];
    && 2 <= |words| <= 3
    && (|words| == 3 ==> i.weekday < 7 && Lower(words[0]) in {Lower(DayName(i.weekday)), DayFull(i.weekday)})
    && DateMatches(Split(date, IsDash), i)
    && TimeMatches(Split(words[|words| - 1], IsColon), i)
  }

  ghost predicate DateMatches(fields: seq<string>, i: Instant) {
    |fields| == 3 && fields[0] == "*" && fields[1] == "*" && FieldMatches(fields[2], i.dom)
  }

  ghost predicate TimeMatches(fields: seq<string>, i: Instant) {
    |fields| == 3 && FieldMatches(fields[0], i.hour) && FieldMatches(fields[1], i.minute) && FieldMatches(fields[2], i.second)
  }

  predicate IsDash(c: char) {
    c == '-'
  }

  // ---------------------------------------------------------------------------
  // A spec is accepted exactly when it denotes a cadence

  /** The expression for a cadence. */
  function Expression(c: Cadence): string
    requires IsCadence(c)
  {
    match c
    case Hourly => HOURLY
    case Daily(at) => "*-*-* " + Time(at)
    case Weekly(day, at) => DayName(day) + " *-*-* " + Time(at)
    case Monthly(dom, at) => "*-*-" + Pad2(dom) + " " + Time(at)
  }

  lemma NumeralParses(text: string, n: nat, max: nat)
    ensures ParseUint(text, max) == Some(n) <==> Numeral(text, n) && n <= max
  {
  }

  lemma NumeralHasNoColon(text: string, n: nat)
    requires Numeral(text, n)
    ensures NoneIn(text, IsColon)
  {
    var t := if text != [] && text[0] == '+' then text[1..] else text;
    forall i | 0 <= i < |text| ensures !IsColon(text[i]) {
      if t == text {
        assert text[i] == t[i] && t[i] in t && IsDigit(t[i]);
      } else if i > 0 {
        assert text[i] == t[i - 1] && t[i - 1] in t && IsDigit(t[i - 1]);
      }
    }
  }

  lemma ClockTextParses(text: string, c: Clock)
    ensures ClockText(text, c) <==> ParseClock(text) == Ok(c)
  {
    if ClockText(text, c) {
      var h: string, m: string :| text == h + ":" + m && Numeral(h, c.hour) && Numeral(m, c.minute);
      NumeralHasNoColon(h, c.hour);
      FindAt(text, IsColon, |h|);
      assert text[..|h|] == h && text[|h| + 1..] == m;
      NumeralParses(h, c.hour, 255);
      NumeralParses(m, c.minute, 255);
    }
    if ParseClock(text) == Ok(c) {
      var k := Find(text, IsColon);
      assert text == text[..k] + ":" + text[k + 1..];
      NumeralParses(text[..k], c.hour, 255);
      NumeralParses(text[k + 1..], c.minute, 255);
    }
  }

  lemma DayTextParses(text: string, day: nat)
    requires day < 7
    ensures DayText(text, day) <==> ParseDow(text) == Ok(DayName(day))
  {
    var t := Lower(text);
    assert DayFull(0)[..3] == "mon" && DayFull(1)[..3] == "tue" && DayFull(2)[..3] == "wed" && DayFull(3)[..3] == "thu";
    assert DayFull(4)[..3] == "fri" && DayFull(5)[..3] == "sat" && DayFull(6)[..3] == "sun";
  }

  lemma DayParses(text: string)
    ensures ParseDow(text).Ok? ==> exists day :: 0 <= day < 7 && ParseDow(text) == Ok(DayName(day))
  {
    assert DayName(0) == "Mon" && DayName(1) == "Tue" && DayName(2) == "Wed" && DayName(3) == "Thu";
    assert DayName(4) == "Fri" && DayName(5) == "Sat" && DayName(6) == "Sun";
  }

  lemma DenotesTranslates(tokens: seq<string>, c: Cadence)
    requires Denotes(tokens, c)
    ensures IsCadence(c) && TranslateWords(tokens) == Ok(Expression(c))
  {
    match c {
      case Hourly =>
      case Daily(at) => ClockTextParses(tokens[1], at);
      case Weekly(day, at) =>
        DayTextParses(tokens[1], day);
        ClockTextParses(tokens[2], at);
      case Monthly(dom, at) =>
        NumeralParses(tokens[1], dom, 255);
        ClockTextParses(tokens[2], at);
    }
  }

  lemma TranslatedDenotes(tokens: seq<string>) returns (c: Cadence)
    requires TranslateWords(tokens).Ok?
    ensures Denotes(tokens, c)
  {
    var cadence := Lower(tokens[0]);
    if cadence == "hourly" {
      c := Hourly;
    } else if cadence == "daily" {
      var at := ParseClock(tokens[1]).value;
      ClockTextParses(tokens[1], at);
      c := Daily(at);
    } else if cadence == "weekly" {
      var at := ParseClock(tokens[2]).value;
      ClockTextParses(tokens[2], at);
      DayParses(tokens[1]);
      var day :| 0 <= day < 7 && ParseDow(tokens[1]) == Ok(DayName(day));
      DayTextParses(tokens[1], day);
      c := Weekly(day, at);
    } else {
      var at := ParseClock(tokens[2]).value;
      ClockTextParses(tokens[2], at);
      var dom := ParseUint(tokens[1], 255).value;
      NumeralParses(tokens[1], dom, 255);
      c := Monthly(dom, at);
    }
  }

  // ---------------------------------------------------------------------------
  // The expression matches exactly the instants of its cadence

  lemma Pad2Reads(n: nat, k: nat)
    requires n < 100
    ensures FieldMatches(Pad2(n), k) <==> n == k
    ensures |Pad2(n)| == 2 && IsDigit(Pad2(n)[0]) && IsDigit(Pad2(n)[1])
  {
    ValueOfDecimal(n);
    assert forall c :: c in Decimal(n) ==> IsDigit(c);
    if n < 10 {
      var t := "0" + Decimal(n);
      assert t[..1] == "0" && t[1] == Digit(n);
      assert Value("0") == 0 by { assert "0"[..0] == []; }
    } else {
      assert Decimal(n) == [Digit(n / 10)] + [Digit(n % 10)];
    }
    assert Pad2(n)[0] in Pad2(n);
  }

  lemma TimeReads(c: Clock)
    requires IsClock(c)
    ensures Split(Time(c), IsColon) == [Pad2(c.hour), Pad2(c.minute), "00"]
  {
    Pad2Reads(c.hour, 0);
    Pad2Reads(c.minute, 0);
    var h, m := Pad2(c.hour), Pad2(c.minute);
    assert Time(c) == h + [':'] + (m + [':'] + "00");
    SplitAt(h, ':', m + [':'] + "00", IsColon);
    SplitAt(m, ':', "00", IsColon);
    SplitNone("00", IsColon);
  }

  predicate IsTimeChar(c: char) {
    IsDigit(c) || c == ':'
  }

  lemma TimeIsWord(c: Clock)
    requires IsClock(c)
    ensures IsWord(Time(c), IsWhite)
  {
    Pad2Reads(c.hour, 0);
    Pad2Reads(c.minute, 0);
    var t := Time(c);
    assert |t| == 8 && t[..2] == Pad2(c.hour) && t[3..5] == Pad2(c.minute);
    forall i | 0 <= i < |t| ensures IsTimeChar(t[i]) {
      assert i < 2 ==> t[i] == Pad2(c.hour)[i];
      assert 3 <= i < 5 ==> t[i] == Pad2(c.minute)[i - 3];
    }
    TimeCharsAreNotWhite(t);
  }

  lemma TimeCharsAreNotWhite(t: string)
    requires forall i :: 0 <= i < |t| ==> IsTimeChar(t[i])
    ensures NoneIn(t, IsWhite)
  {
  }

  lemma TimeMatchesClock(c: Clock, i: Instant)
    requires IsClock(c)
    ensures TimeMatches(Split(Time(c), IsColon), i) <==> AtClock(c, i)
  {
    TimeReads(c);
    Pad2Reads(c.hour, i.hour);
    Pad2Reads(c.minute, i.minute);
    Pad2Reads(0, i.second);
    assert Pad2(0) == "00";
  }

  lemma HourlyReads(i: Instant)
    ensures TimeMatches(["*", "00", "00"], i) <==> i.minute == 0 && i.second == 0
  {
    Pad2Reads(0, i.minute);
    Pad2Reads(0, i.second);
    assert Pad2(0) == "00";
  }

  lemma SplitThree(a: string, b: string, c: string)
    requires NoneIn(a, IsColon) && NoneIn(b, IsColon) && NoneIn(c, IsColon)
    ensures Split(a + [':'] + (b + [':'] + c), IsColon) == [a, b, c]
  {
    SplitAt(a, ':', b + [':'] + c, IsColon);
    SplitAt(b, ':', c, IsColon);
    SplitNone(c, IsColon);
  }

  lemma DateReads(field: string)
    requires NoneIn(field, IsDash)
    ensures Split("*-*-" + field, IsDash) == ["*", "*", field]
  {
    assert "*-*-" + field == "*" + ['-'] + ("*" + ['-'] + field);
    SplitAt("*", '-', "*" + ['-'] + field, IsDash);
    SplitAt("*", '-', field, IsDash);
    SplitNone(field, IsDash);
  }

  lemma TwoWords(a: string, b: string)
    requires IsWord(a, IsWhite) && IsWord(b, IsWhite)
    ensures Words(a + " " + b, IsWhite) == [a, b]
  {
    assert Join([a, b][1..], " ") == b && Join([a, b], " ") == a + " " + b;
    WordsOfJoin([a, b], IsWhite);
  }

  lemma ThreeWords(a: string, b: string, c: string)
    requires IsWord(a, IsWhite) && IsWord(b, IsWhite) && IsWord(c, IsWhite)
    ensures Words(a + " " + b + " " + c, IsWhite) == [a, b, c]
  {
    assert [a, b, c][1..] == [b, c] && [b, c][1..] == [c];
    assert Join([b, c], " ") == b + " " + c;
    assert Join([a, b, c], " ") == a + " " + Join([b, c], " ");
    assert a + " " + (b + " " + c) == a + " " + b + " " + c;
    WordsOfJoin([a, b, c], IsWhite);
  }

  lemma LowerDayName(day: nat)
    requires day < 7
    ensures Lower(DayName(day)) == DayFull(day)[..3] && |DayName(day)| == 3
    ensures IsUpper(DayName(day)[0]) && IsLower(DayName(day)[1]) && IsLower(DayName(day)[2])
  {
    var n := DayName(day);
    assert Lower(n) == [LowerChar(n[0]), LowerChar(n[1]), LowerChar(n[2])];
    assert DayFull(day)[..3] == [DayFull(day)[0], DayFull(day)[1], DayFull(day)[2]];
  }

  lemma DayNameReads(day: nat, weekday: nat)
    requires day < 7 && weekday < 7
    ensures IsWord(DayName(day), IsWhite)
    ensures Lower(DayName(day)) in {Lower(DayName(weekday)), DayFull(weekday)} <==> day == weekday
  {
    LowerDayName(day);
    LowerDayName(weekday);
    assert |DayFull(weekday)| > 3;
    if day != weekday {
      assert DayFull(day)[0] != DayFull(weekday)[0] || DayFull(day)[1] != DayFull(weekday)[1];
      assert DayFull(day)[..3][0] != DayFull(weekday)[..3][0] || DayFull(day)[..3][1] != DayFull(weekday)[..3][1];
    }
  }

  lemma PairMatches(date: string, time: string, i: Instant)
    requires IsWord(date, IsWhite) && IsWord(time, IsWhite)
    ensures Matches(date + " " + time, i) <==> DateMatches(Split(date, IsDash), i) && TimeMatches(Split(time, IsColon), i)
  {
    TwoWords(date, time);
  }

  lemma DailyMatches(date: string, at: Clock, i: Instant)
    requires IsClock(at) && IsWord(date, IsWhite)
    ensures Matches(date + " " + Time(at), i) <==> DateMatches(Split(date, IsDash), i) && AtClock(at, i)
  {
    TimeIsWord(at);
    PairMatches(date, Time(at), i);
    TimeMatchesClock(at, i);
  }

  lemma WeeklyMatches(day: nat, date: string, at: Clock, i: Instant)
    requires IsClock(at) && IsWord(date, IsWhite) && day < 7 && i.weekday < 7
    ensures Matches(DayName(day) + " " + date + " " + Time(at), i)
       <==> day == i.weekday && DateMatches(Split(date, IsDash), i) && AtClock(at, i)
  {
    TimeIsWord(at);
    DayNameReads(day, i.weekday);
    ThreeWords(DayName(day), date, Time(at));
    TimeMatchesClock(at, i);
  }

  lemma MonthlyDate(dom: nat)
    requires dom < 100
    ensures IsWord("*-*-" + Pad2(dom), IsWhite)
    ensures Split("*-*-" + Pad2(dom), IsDash) == ["*", "*", Pad2(dom)]
  {
    Pad2Reads(dom, 0);
    DateReads(Pad2(dom));
    DateIsWord(Pad2(dom));
  }

  lemma DateIsWord(field: string)
    requires |field| == 2 && IsDigit(field[0]) && IsDigit(field[1])
    ensures IsWord("*-*-" + field, IsWhite)
  {
    var s := "*-*-" + field;
    assert s == ['*', '-', '*', '-', field[0], field[1]];
  }

  ghost predicate IsAnyDate(date: string) {
    IsWord(date, IsWhite) && Split(date, IsDash) == ["*", "*", "*"]
  }

  lemma HourlyMatches(date: string, time: string, i: Instant)
    requires IsAnyDate(date) && IsWord(time, IsWhite)
    requires TimeMatches(Split(time, IsColon), i) <==> i.minute == 0 && i.second == 0
    ensures Matches(date + " " + time, i) <==> i.minute == 0 && i.second == 0
  {
    PairMatches(date, time, i);
  }

  lemma EveryDateMatches(date: string, at: Clock, i: Instant, day: nat)
    requires IsAnyDate(date) && IsClock(at) && i.weekday < 7 && day < 7
    ensures Matches(date + " " + Time(at), i) <==> AtClock(at, i)
    ensures Matches(DayName(day) + " " + date + " " + Time(at), i) <==> day == i.weekday && AtClock(at, i)
  {
    DailyMatches(date, at, i);
    WeeklyMatches(day, date, at, i);
  }

  lemma OneDateMatches(dom: nat, at: Clock, i: Instant)
    requires IsClock(at) && dom < 100
    ensures Matches("*-*-" + Pad2(dom) + " " + Time(at), i) <==> dom == i.dom && AtClock(at, i)
  {
    MonthlyDate(dom);
    Pad2Reads(dom, i.dom);
    DailyMatches("*-*-" + Pad2(dom), at, i);
  }

  lemma AnyDate() returns (date: string)
    ensures date == "*-*-*" && IsAnyDate(date)
  {
    date := "*-*-" + "*";
    DateReads("*");
  }

  lemma EveryHour() returns (time: string)
    ensures time == "*:00:00" && IsWord(time, IsWhite) && Split(time, IsColon) == ["*", "00", "00"]
  {
    var any, zero: string := "*", "00";
    time := any + [':'] + (zero + [':'] + zero);
    SplitThree(any, zero, zero);
    EveryHourIsWord(time);
  }

  lemma EveryHourIsWord(time: string)
    requires time == ['*', ':', '0', '0', ':', '0', '0']
    ensures IsWord(time, IsWhite) && time == "*:00:00"
  {
  }

  lemma SpellDaily(date: string, time: string)
    requires date == "*-*-*"
    ensures "*-*-* " + time == date + " " + time
  {
  }

  lemma SpellWeekly(day: string, date: string, time: string)
    requires date == "*-*-*"
    ensures day + " *-*-* " + time == day + " " + date + " " + time
  {
  }

  lemma SpellHourly(date: string, time: string)
    requires date == "*-*-*" && time == "*:00:00"
    ensures HOURLY == date + " " + time
  {
  }

  lemma ExpressionMatches(c: Cadence, i: Instant)
    requires IsCadence(c) && IsInstant(i)
    ensures Matches(Expression(c), i) <==> Fires(c, i)
  {
    var date := AnyDate();
    match c {
      case Hourly =>
        var time := EveryHour();
        HourlyReads(i);
        HourlyMatches(date, time, i);
        SpellHourly(date, time);
      case Daily(at) =>
        EveryDateMatches(date, at, i, 0);
        SpellDaily(date, Time(at));
      case Weekly(day, at) =>
        EveryDateMatches(date, at, i, day);
        SpellWeekly(DayName(day), date, Time(at));
      case Monthly(dom, at) => OneDateMatches(dom, at, i);
    }
  }

  lemma AcceptsWhatDenotes(tokens: seq<string>)
    ensures TranslateWords(tokens).Ok? <==> exists c :: Denotes(tokens, c)
  {
    if TranslateWords(tokens).Ok? {
      var c := TranslatedDenotes(tokens);
    }
    if c :| Denotes(tokens, c) {
      DenotesTranslates(tokens, c);
    }
  }

  lemma MatchesWhatDenotes(tokens: seq<string>, c: Cadence, i: Instant)
    requires Denotes(tokens, c) && IsInstant(i)
    ensures TranslateWords(tokens).Ok? && (Matches(TranslateWords(tokens).value, i) <==> Fires(c, i))
  {
    DenotesTranslates(tokens, c);
    ExpressionMatches(c, i);
  }

  /**
   `to_on_calendar` accepts a spec exactly when it denotes a cadence, and then the
   expression it emits matches exactly the instants at which that cadence fires.
   */
  lemma TranslationIsFaithful(spec: string)
    ensures ToOnCalendar(spec).Ok? <==> exists c :: Means(spec, c)
    ensures forall c, i :: Means(spec, c) && IsInstant(i) ==>
              ToOnCalendar(spec).Ok? && (Matches(ToOnCalendar(spec).value, i) <==> Fires(c, i))
  {
    AcceptsWhatDenotes(Words(spec, IsWhite));
    assert forall c :: Means(spec, c) <==> Denotes(Words(spec, IsWhite), c);
    forall c, i | Means(spec, c) && IsInstant(i)
      ensures ToOnCalendar(spec).Ok? && (Matches(ToOnCalendar(spec).value, i) <==> Fires(c, i))
    {
      MatchesWhatDenotes(Words(spec, IsWhite), c, i);
    }
  }

  // ---------------------------------------------------------------------------
  // Canonical form

  /** An instant at which the first of two different cadences fires and the second does not, or the other way round. */
  function Separator(c: Cadence, d: Cadence): (i: Instant)
    requires IsCadence(c) && IsCadence(d) && c != d
    ensures IsInstant(i)
  {
    var at := if c.Hourly? then d.at else c.at;
    var day := if c.Weekly? then c.day else if d.Weekly? then (d.day + 1) % 7 else 0;
    var dom := if c.Monthly? then c.dom else if d.Monthly? then d.dom % 31 + 1 else 1;
    var i := Instant(day, dom, at.hour, at.minute, 0);
    if Fires(c, i) != Fires(d, i) then i
    else if c.Hourly? || d.Hourly? then i.(hour := (at.hour + 1) % 24, minute := 0)
    else i.(weekday := (day + 1) % 7, dom := dom % 31 + 1)
  }

  lemma CadencesDiffer(c: Cadence, d: Cadence)
    requires IsCadence(c) && IsCadence(d) && c != d
    ensures exists i :: IsInstant(i) && Fires(c, i) != Fires(d, i)
  {
    var i := Separator(c, d);
    assert Fires(c, i) != Fires(d, i);
  }

  /** Two accepted specs give the same expression exactly when they fire at the same instants. */
  lemma OutputIsCanonical(spec: string, other: string, c: Cadence, d: Cadence)
    requires Means(spec, c) && Means(other, d)
    ensures ToOnCalendar(spec) == ToOnCalendar(other) <==> forall i :: IsInstant(i) ==> (Fires(c, i) <==> Fires(d, i))
  {
    DenotesTranslates(Words(spec, IsWhite), c);
    DenotesTranslates(Words(other, IsWhite), d);
    forall i | IsInstant(i)
      ensures (Matches(Expression(c), i) <==> Fires(c, i)) && (Matches(Expression(d), i) <==> Fires(d, i))
    {
      ExpressionMatches(c, i);
      ExpressionMatches(d, i);
    }
    if c != d {
      CadencesDiffer(c, d);
    }
  }
}
