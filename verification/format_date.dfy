/** `formatDate` of src/utils/formatDate.ts over the calendar fields a
    `Date` reports in local time (the clock and time-zone lookup are
    outside the model). `getDay()` numbers the week from Sunday = 0. */
module FormatDate {
  import opened Wrappers
  import Strings

  datatype Language = En | ZhCn
  datatype DayFormat = D | DD | DDD

  datatype Options = Options(language: Option<Language>, format: Option<DayFormat>)

  /** The fields of `getDateInfo` that the formatted strings use; `month`
      is `getMonth() + 1`. */
  datatype DateInfo = DateInfo(fullYear: int, month: nat, date: nat, day: nat, hours: nat, minutes: nat, seconds: nat)

  /** What a `Date` reports: `getMonth()` in 0..11, `getDate()` in 1..31,
      `getDay()` in 0..6, and the time of day. */
  predicate Calendar(monthIndex: nat, date: nat, day: nat, hours: nat, minutes: nat, seconds: nat) {
    monthIndex < 12 && 1 <= date <= 31 && day < 7 && hours < 24 && minutes < 60 && seconds < 60
  }

  /** `getDateInfo(date)`. */
  function GetDateInfo(fullYear: int, monthIndex: nat, date: nat, day: nat, hours: nat, minutes: nat, seconds: nat): (r: DateInfo)
    requires Calendar(monthIndex, date, day, hours, minutes, seconds)
    ensures 1 <= r.month <= 12 && r.month - 1 == monthIndex
    ensures r.day < 7 && r.date == date && r.hours == hours && r.minutes == minutes && r.seconds == seconds
  {
    DateInfo(fullYear, monthIndex + 1, date, day, hours, minutes, seconds)
  }

  /** One entry of `fillZero`: a "0" in front of values below 10. */
  function FillZero(n: nat): (s: string)
    ensures Strings.AllDigits(s) && Strings.ParseDecimal(s) == n
    ensures n < 100 ==> |s| == 2
    ensures n < 10 ==> s[0] == '0'
    ensures n >= 10 ==> s == Strings.NatToString(n)
  {
    Strings.ParseNatToString(n);
    if n < 10 then
      Strings.ParseLeadingZero(Strings.NatToString(n));
      "0" + Strings.NatToString(n)
    else Strings.NatToString(n)
  }

  /** The seven days, in `getDay()` order. */
  datatype Weekday = Sunday | Monday | Tuesday | Wednesday | Thursday | Friday | Saturday

  function WeekdayOf(day: nat): (w: Weekday)
    requires day < 7
    ensures IndexOf(w) == day
  {
    [Sunday, Monday, Tuesday, Wednesday, Thursday, Friday, Saturday][day]
  }

  function IndexOf(w: Weekday): (i: nat)
    ensures i < 7
  {
    match w
    case Sunday => 0
    case Monday => 1
    case Tuesday => 2
    case Wednesday => 3
    case Thursday => 4
    case Friday => 5
    case Saturday => 6
  }

  /** One weekday's six names, in English and Chinese, picked by language
      and format. */
  function Pick(language: Language, format: DayFormat, d: string, dd: string, ddd: string,
                zhD: string, zhDD: string, zhDDD: string): string
  {
    match (language, format)
    case (En, D) => d
    case (En, DD) => dd
    case (En, DDD) => ddd
    case (ZhCn, D) => zhD
    case (ZhCn, DD) => zhDD
    case (ZhCn, DDD) => zhDDD
  }

  /** The name of a weekday in each language and format, weekday by
      weekday. */
  function Name(w: Weekday, language: Language, format: DayFormat): string {
    match w
    case Sunday => Pick(language, format, "S", "Su", "Sun", "日", "周日", "星期日")
    case Monday => Pick(language, format, "M", "Mo", "Mon", "一", "周一", "星期一")
    case Tuesday => Pick(language, format, "T", "Tu", "Tue", "二", "周二", "星期二")
    case Wednesday => Pick(language, format, "W", "We", "Wed", "三", "周三", "星期三")
    case Thursday => Pick(language, format, "T", "Th", "Thu", "四", "周四", "星期四")
    case Friday => Pick(language, format, "F", "Fr", "Fri", "五", "周五", "星期五")
    case Saturday => Pick(language, format, "S", "Sa", "Sat", "六", "周六", "星期六")
  }

  /** The tables of `getDayName` exactly as written: the English `dd` and
      `ddd` tables put Saturday's name first and Sunday's last, and every
      Chinese table starts on Monday. */
  function DayTableAsWritten(language: Language, format: DayFormat): (t: seq<string>)
    ensures |t| == 7
  {
    match (language, format)
    case (En, D) => ["S", "M", "T", "W", "T", "F", "S"]
    case (En, DD) => ["Sa", "Mo", "Tu", "We", "Th", "Fr", "Su"]
    case (En, DDD) => ["Sat", "Mon", "Tue", "Wed", "Thu", "Fri", "Sun"]
    case (ZhCn, D) => ["一", "二", "三", "四", "五", "六", "日"]
    case (ZhCn, DD) => ["周一", "周二", "周三", "周四", "周五", "周六", "周日"]
    case (ZhCn, DDD) => ["星期一", "星期二", "星期三", "星期四", "星期五", "星期六", "星期日"]
  }

  /** `getDayName(day, language, format)` as written: entry `day` of the
      table. */
  function GetDayNameAsWritten(day: nat, language: Language, format: DayFormat): (r: string)
    requires day < 7
    ensures r == DayTableAsWritten(language, format)[day]
  {
    DayTableAsWritten(language, format)[day]
  }

  /** As written, Sunday (`getDay() == 0`) is called "Sat" in English and
      "星期一" (Monday) in Chinese. */
  lemma SundayMisnamed()
    ensures GetDayNameAsWritten(0, En, DDD) == "Sat" != Name(Sunday, En, DDD)
    ensures GetDayNameAsWritten(0, ZhCn, DDD) == "星期一" != Name(Sunday, ZhCn, DDD)
  {
  }

  /** Where the written tables go wrong: the English ones only swap the
      weekend, the Chinese ones are shifted by a whole day. */
  lemma AsWrittenVersusNames(day: nat, format: DayFormat)
    requires day < 7
    ensures 1 <= day <= 5 ==> GetDayNameAsWritten(day, En, format) == Name(WeekdayOf(day), En, format)
    ensures GetDayNameAsWritten(day, ZhCn, format) == Name(WeekdayOf((day + 1) % 7), ZhCn, format)
  {
  }

  /** `getDayName` as evidently intended: the name of the weekday
      `getDay()` reports. */
  function GetDayName(day: nat, language: Language, format: DayFormat): (r: string)
    requires day < 7
    ensures r == Name(WeekdayOf(day), language, format)
  {
    DayTable(language, format)[day]
  }

  /** The tables of `getDayName` corrected to start on Sunday, as `getDay()`
      numbers the week. */
  function DayTable(language: Language, format: DayFormat): (t: seq<string>)
    ensures |t| == 7
    ensures forall i :: 0 <= i < 7 ==> t[i] == Name(WeekdayOf(i), language, format)
  {
    match (language, format)
    case (En, D) => ["S", "M", "T", "W", "T", "F", "S"]
    case (En, DD) => ["Su", "Mo", "Tu", "We", "Th", "Fr", "Sa"]
    case (En, DDD) => ["Sun", "Mon", "Tue", "Wed", "Thu", "Fri", "Sat"]
    case (ZhCn, D) => ["日", "一", "二", "三", "四", "五", "六"]
    case (ZhCn, DD) => ["周日", "周一", "周二", "周三", "周四", "周五", "周六"]
    case (ZhCn, DDD) => ["星期日", "星期一", "星期二", "星期三", "星期四", "星期五", "星期六"]
  }

  /** The corrected English one-letter table is the one the source has. */
  lemma OneLetterTableUnchanged()
    ensures DayTable(En, D) == DayTableAsWritten(En, D)
  {
  }

  datatype Formatted = Formatted(
    info: DateInfo,
    dayName: string,
    yyyymmddHHmmss: string,
    yyyymmdd: string,
    mmdd: string,
    hhmmss: string)

  /** The object `formatDate` returns around a given day name: the date
      fields and the zero-padded texts. */
  function Fields(info: DateInfo, dayName: string): (r: Formatted)
    ensures r.info == info && r.dayName == dayName
    ensures r.yyyymmddHHmmss == r.yyyymmdd + " " + r.hhmmss
    ensures r.mmdd == FillZero(info.month) + "-" + FillZero(info.date)
    ensures r.yyyymmdd == Strings.IntToString(info.fullYear) + "-" + r.mmdd
    ensures r.hhmmss == FillZero(info.hours) + ":" + FillZero(info.minutes) + ":" + FillZero(info.seconds)
  {
    var year := Strings.IntToString(info.fullYear);
    var month, date, hours, minutes, seconds :=
      FillZero(info.month), FillZero(info.date), FillZero(info.hours), FillZero(info.minutes), FillZero(info.seconds);
    FieldsJoin(year, month, date, hours, minutes, seconds);
    Formatted(
      info,
      dayName,
      year + "-" + month + "-" + date + " " + hours + ":" + minutes + ":" + seconds,
      year + "-" + month + "-" + date,
      month + "-" + date,
      hours + ":" + minutes + ":" + seconds)
  }

  /** `formatDate(date, options)` with the corrected day names. The
      language defaults to English and the format to `ddd`. */
  function FormatDate(info: DateInfo, options: Options): (r: Formatted)
    requires info.day < 7
    ensures r.info == info
    ensures r.dayName == Name(WeekdayOf(info.day), options.language.GetOr(En), options.format.GetOr(DDD))
    ensures r.yyyymmddHHmmss == r.yyyymmdd + " " + r.hhmmss
    ensures r.mmdd == FillZero(info.month) + "-" + FillZero(info.date)
    ensures r.yyyymmdd == Strings.IntToString(info.fullYear) + "-" + r.mmdd
    ensures r.hhmmss == FillZero(info.hours) + ":" + FillZero(info.minutes) + ":" + FillZero(info.seconds)
  {
    Fields(info, GetDayName(info.day, options.language.GetOr(En), options.format.GetOr(DDD)))
  }

  /** `formatDate(date, options)` as written, over the written tables: it
      agrees with the corrected `FormatDate` in every field but `dayName`. */
  function FormatDateAsWritten(info: DateInfo, options: Options): (r: Formatted)
    requires info.day < 7
    ensures r.dayName == DayTableAsWritten(options.language.GetOr(En), options.format.GetOr(DDD))[info.day]
    ensures r == FormatDate(info, options).(dayName := r.dayName)
  {
    Fields(info, GetDayNameAsWritten(info.day, options.language.GetOr(En), options.format.GetOr(DDD)))
  }

  /** With the default options, a Sunday is formatted as "Sat" as written
      and as "Sun" once corrected; every other field is the same. */
  lemma SundayFormattedAsSaturday(info: DateInfo)
    requires info.day == 0
    ensures FormatDateAsWritten(info, Options(None, None)).dayName == "Sat"
    ensures FormatDate(info, Options(None, None)).dayName == "Sun"
    ensures FormatDateAsWritten(info, Options(None, None)) == FormatDate(info, Options(None, None)).(dayName := "Sat")
  {
  }

  /** The full text is the date part, a space and the time part. */
  lemma FieldsJoin(year: string, month: string, date: string, hours: string, minutes: string, seconds: string)
    ensures year + "-" + month + "-" + date == year + "-" + (month + "-" + date)
    ensures year + "-" + month + "-" + date + " " + hours + ":" + minutes + ":" + seconds
      == (year + "-" + month + "-" + date) + " " + (hours + ":" + minutes + ":" + seconds)
  {
  }

  /** For a real clock reading, `HHmmss` is eight characters, colons at 2
      and 5, and its fields read back as the hours, minutes and seconds. */
  lemma TimeReadsBack(info: DateInfo, options: Options)
    requires info.day < 7 && info.hours < 24 && info.minutes < 60 && info.seconds < 60
    ensures var t := FormatDate(info, options).hhmmss;
      && |t| == 8 && t[2] == ':' && t[5] == ':'
      && Strings.AllDigits(t[..2]) && Strings.ParseDecimal(t[..2]) == info.hours
      && Strings.AllDigits(t[3..5]) && Strings.ParseDecimal(t[3..5]) == info.minutes
      && Strings.AllDigits(t[6..]) && Strings.ParseDecimal(t[6..]) == info.seconds
  {
    var t := FormatDate(info, options).hhmmss;
    var h, m, s := FillZero(info.hours), FillZero(info.minutes), FillZero(info.seconds);
    assert t == h + ":" + m + ":" + s;
    assert t[..2] == h && t[3..5] == m && t[6..] == s;
  }

  /** The `MM-DD` part of a real date: the month field reads back as a
      value in 1..12 and the day of the month in 1..31. */
  lemma MonthDayReadsBack(fullYear: int, monthIndex: nat, date: nat, day: nat, hours: nat, minutes: nat, seconds: nat, options: Options)
    requires Calendar(monthIndex, date, day, hours, minutes, seconds)
    ensures var info := GetDateInfo(fullYear, monthIndex, date, day, hours, minutes, seconds);
      var t := FormatDate(info, options).mmdd;
      && |t| == 5 && t[2] == '-'
      && Strings.AllDigits(t[..2]) && 1 <= Strings.ParseDecimal(t[..2]) <= 12
      && Strings.ParseDecimal(t[..2]) == monthIndex + 1
      && Strings.AllDigits(t[3..]) && Strings.ParseDecimal(t[3..]) == date
  {
    var info := GetDateInfo(fullYear, monthIndex, date, day, hours, minutes, seconds);
    var t := FormatDate(info, options).mmdd;
    var mo, d := FillZero(info.month), FillZero(info.date);
    assert t == mo + "-" + d;
    assert t[..2] == mo && t[3..] == d;
  }
}
