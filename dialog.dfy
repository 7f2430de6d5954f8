/**
  src/module/system/dialog-module.js, the parts that compute: the colour of
  a dialogue by its chat code, the removal delay of a notification, the
  name of the daily log file, the log update with its audio rule, and the
  markup of a dialogue. Windows, timers and files are not part of this
  model; what they would hand the code comes in as parameters.
 */
module Dialog {
  import opened Optional
  import opened JsString

  // ---------------------------------------------------------------------------
  // Colours
  // ---------------------------------------------------------------------------

  /** A row of the chat-code table: `{ChatCode, Color}`. */
  datatype ChatCode = ChatCode(chatCode: string, color: string)

  /** The colour used when no row of the table has the code. */
  const DefaultColor: string := "#FFFFFF"

  /** The colour of the first row with the code, or white when there is none. */
  function ColorOf(table: seq<ChatCode>, code: string): (color: string)
    ensures (forall k :: 0 <= k < |table| ==> table[k].chatCode != code) ==> color == DefaultColor
    ensures forall k :: 0 <= k < |table| && table[k].chatCode == code && (forall j :: 0 <= j < k ==> table[j].chatCode != code)
                ==> color == table[k].color
    decreases |table|
  {
    if table == [] then DefaultColor
    else if table[0].chatCode == code then table[0].color
    else
      var color := ColorOf(table[1..], code);
      assert forall k :: 1 <= k < |table| ==> table[k] == table[1..][k - 1];
      color
  }

  /** `getColor(code)`: the search loop, leaving at the first row with the code. */
  method GetColor(chatCode: seq<ChatCode>, code: string) returns (color: string)
    ensures color == ColorOf(chatCode, code)
  {
    color := DefaultColor;
    var index := 0;
    while index < |chatCode|
      invariant index <= |chatCode|
      invariant color == DefaultColor
      invariant ColorOf(chatCode, code) == ColorOf(chatCode[index..], code)
    {
      var element := chatCode[index];
      if code == element.chatCode {
        color := element.color;
        break;
      }
      assert chatCode[index..][1..] == chatCode[index + 1..];
      index := index + 1;
    }
  }

  /**
    The `color` of `getStyle(code = '0039')`: the configured channel colour
    when it is set and not `''`, else the chat-code table's.
   */
  function StyleColor(channel: map<string, string>, table: seq<ChatCode>, code: Option<string>): (color: string)
    ensures var c := if code.Some? then code.value else "0039";
      && (c in channel && channel[c] != "" ==> color == channel[c])
      && (c !in channel || channel[c] == "" ==> color == ColorOf(table, c))
  {
    var c := if code.Some? then code.value else "0039";
    if c in channel && channel[c] != "" then channel[c] else ColorOf(table, c)
  }

  // ---------------------------------------------------------------------------
  // Notifications
  // ---------------------------------------------------------------------------

  /**
    How long a notification stays, in milliseconds, for a text of `length`
    UTF-16 code units: five seconds plus 20 ms a unit, the extra capped at
    five seconds.
   */
  function NotificationDelay(length: nat): (ms: int)
    ensures 5000 <= ms <= 10000
    ensures length >= 250 ==> ms == 10000
    ensures length < 250 ==> ms < 10000
  {
    5000 + if length * 20 < 5000 then length * 20 else 5000
  }

  /** A longer text never stays for a shorter time. */
  lemma NotificationDelayMonotone(shorter: nat, longer: nat)
    requires shorter <= longer
    ensures NotificationDelay(shorter) <= NotificationDelay(longer)
  {
  }

  // ---------------------------------------------------------------------------
  // Log file names
  // ---------------------------------------------------------------------------

  /** A calendar date: `getFullYear()`, `getMonth() + 1` and `getDate()`. */
  datatype Date = Date(year: int, month: int, day: int)

  predicate LeapYear(year: int)
  {
    year % 4 == 0 && (year % 100 != 0 || year % 400 == 0)
  }

  function DaysInMonth(year: int, month: int): int
    requires 1 <= month <= 12
  {
    if month == 2 then (if LeapYear(year) then 29 else 28)
    else if month == 4 || month == 6 || month == 9 || month == 11 then 30
    else 31
  }

  /** A day of the proleptic Gregorian calendar, as JavaScript dates use. */
  predicate ValidDate(d: Date)
  {
    1 <= d.month <= 12 && 1 <= d.day <= DaysInMonth(d.year, d.month)
  }

  function MonthOffset(month: int): int
    requires 1 <= month <= 12
  {
    [0, 3, 2, 5, 0, 3, 5, 1, 4, 6, 2, 4][month - 1]
  }

  /** The days a year shifts the weekday, counting the leap days before it. */
  function YearShift(y: int): int
  {
    y + y / 4 - y / 100 + y / 400
  }

  /** `getDay()`: the day of the week, 0 for Sunday through 6 for Saturday. */
  function Weekday(d: Date): (w: int)
    requires 1 <= d.month <= 12
    ensures 0 <= w < 7
  {
    var y := if d.month < 3 then d.year - 1 else d.year;
    (YearShift(y) + MonthOffset(d.month) + d.day) % 7
  }

  /** Two known days: 1 January 1970 was a Thursday and 1 January 2024 a Monday. */
  lemma KnownWeekdays()
    ensures Weekday(Date(1970, 1, 1)) == 4
    ensures Weekday(Date(2024, 1, 1)) == 1
  {
  }

  lemma ModNext(a: int)
    ensures (a + 1) % 7 == (a % 7 + 1) % 7
  {
  }

  lemma ModCongruent(a: int, b: int)
    requires (a - b) % 7 == 0
    ensures a % 7 == b % 7
  {
  }

  /** Within a month, the weekday advances by one each day. */
  lemma WeekdayNextDay(d: Date)
    requires ValidDate(d) && d.day < DaysInMonth(d.year, d.month)
    ensures Weekday(Date(d.year, d.month, d.day + 1)) == (Weekday(d) + 1) % 7
  {
    var y := if d.month < 3 then d.year - 1 else d.year;
    ModNext(YearShift(y) + MonthOffset(d.month) + d.day);
  }

  /** Month by month, the offsets of the table follow the lengths of the months, modulo a week. */
  lemma MonthOffsetStep(year: int, month: int)
    requires 1 <= month < 12
    ensures (MonthOffset(month + 1) - MonthOffset(month) - DaysInMonth(year, month)
             + (if month == 2 then (if LeapYear(year) then 2 else 1) else 0)) % 7 == 0
  {
  }

  /** From the last day of a month to the first of the next, the weekday also advances by one. */
  lemma WeekdayNextMonth(year: int, month: int)
    requires 1 <= month < 12
    ensures Weekday(Date(year, month + 1, 1)) == (Weekday(Date(year, month, DaysInMonth(year, month))) + 1) % 7
  {
    var yNext := if month + 1 < 3 then year - 1 else year;
    var y := if month < 3 then year - 1 else year;
    var last := YearShift(y) + MonthOffset(month) + DaysInMonth(year, month);
    var first := YearShift(yNext) + MonthOffset(month + 1) + 1;
    assert first - (last + 1) == YearShift(yNext) - YearShift(y) + MonthOffset(month + 1) - MonthOffset(month) - DaysInMonth(year, month);
    MonthGap(year, month, YearShift(yNext) - YearShift(y));
    ModCongruent(first, last + 1);
    ModNext(last);
  }

  /** The shift between the last day of a month and the first of the next is one day, modulo a week. */
  lemma MonthGap(year: int, month: int, shift: int)
    requires 1 <= month < 12
    requires shift == (if month == 2 then YearShift(year) - YearShift(year - 1) else 0)
    ensures (shift + MonthOffset(month + 1) - MonthOffset(month) - DaysInMonth(year, month)) % 7 == 0
  {
    if month == 2 {
      LeapDays(year);
    }
    MonthOffsetStep(year, month);
  }

  /** From 31 December to 1 January the weekday advances by one. */
  lemma WeekdayNextYear(year: int)
    ensures Weekday(Date(year + 1, 1, 1)) == (Weekday(Date(year, 12, 31)) + 1) % 7
  {
    var last := YearShift(year) + MonthOffset(12) + 31;
    var first := YearShift(year + 1 - 1) + MonthOffset(1) + 1;
    ModCongruent(first, last + 1);
    ModNext(last);
  }

  lemma DivStep(y: int)
    ensures y / 4 - (y - 1) / 4 == (if y % 4 == 0 then 1 else 0)
    ensures y / 100 - (y - 1) / 100 == (if y % 100 == 0 then 1 else 0)
    ensures y / 400 - (y - 1) / 400 == (if y % 400 == 0 then 1 else 0)
  {
  }

  /** A year shifts the weekday by two after a leap year's February, by one otherwise. */
  lemma LeapDays(year: int)
    ensures YearShift(year) - YearShift(year - 1) == (if LeapYear(year) then 2 else 1)
  {
    DivStep(year);
    if year % 100 == 0 {
      Divides100(year);
    }
    if year % 400 == 0 {
      Divides400(year);
    }
  }

  lemma Divides100(y: int)
    requires y % 100 == 0
    ensures y % 4 == 0
  {
    var q := y / 100;
    assert y == 4 * (25 * q);
  }

  lemma Divides400(y: int)
    requires y % 400 == 0
    ensures y % 100 == 0
  {
    var q := y / 400;
    assert y == 100 * (4 * q);
  }

  /** A number as a two-digit field: `(n + '').padStart(2, '0')`. */
  function Field2(n: nat): string
  {
    PadStart2(NatToString(n))
  }

  /**
    `createLogName(milliseconds)` as written: `YYYY-MM-DD.json` whose last
    field is `getDay()`, the day of the week.
   */
  function LogName(d: Date): string
    requires 1 <= d.month <= 12
  {
    IntToString(d.year) + DateTail(d.month, Weekday(d))
  }

  /** The name intended: the last field is the day of the month, `getDate()`. */
  function DailyLogName(d: Date): string
    requires ValidDate(d)
  {
    IntToString(d.year) + DateTail(d.month, d.day)
  }

  /** The part of a log name after the year: `-MM-DD.json`. */
  function DateTail(month: nat, day: nat): string
  {
    "-" + Field2(month) + "-" + Field2(day) + ".json"
  }

  /** Below 100 both fields take two characters, so they sit at fixed places. */
  lemma DateTailFields(month: nat, day: nat)
    requires month < 100 && day < 100
    ensures |DateTail(month, day)| == 11
    ensures DateTail(month, day)[1..3] == Field2(month) && DateTail(month, day)[4..6] == Field2(day)
  {
    Field2Shape(month);
    Field2Shape(day);
  }

  /** As written, a day and the same weekday one week later in the month share a log file. */
  lemma LogNameRepeatsWeekly(d: Date)
    requires ValidDate(d) && d.day + 7 <= DaysInMonth(d.year, d.month)
    ensures LogName(Date(d.year, d.month, d.day + 7)) == LogName(d)
  {
    var y := if d.month < 3 then d.year - 1 else d.year;
    var a := YearShift(y) + MonthOffset(d.month) + d.day;
    ModCongruent(a + 7, a);
  }

  /** For instance, 1 and 8 January 2024, both Mondays, both log to `2024-01-01.json`. */
  lemma LogNameCollision()
    ensures LogName(Date(2024, 1, 1)) == LogName(Date(2024, 1, 8))
    ensures DailyLogName(Date(2024, 1, 1)) != DailyLogName(Date(2024, 1, 8))
  {
    LogNameRepeatsWeekly(Date(2024, 1, 1));
    DailyLogNameDistinct(Date(2024, 1, 1), Date(2024, 1, 8));
  }

  /** Distinct days get distinct names. */
  lemma DailyLogNameDistinct(d: Date, e: Date)
    requires ValidDate(d) && ValidDate(e) && d != e
    ensures DailyLogName(d) != DailyLogName(e)
  {
    if DailyLogName(d) == DailyLogName(e) {
      DailyLogNameInjective(d, e);
    }
  }

  /** Every day has its own log file once the day of the month is used. */
  lemma DailyLogNameInjective(d: Date, e: Date)
    requires ValidDate(d) && ValidDate(e)
    requires DailyLogName(d) == DailyLogName(e)
    ensures d == e
  {
    DateTailFields(d.month, d.day);
    DateTailFields(e.month, e.day);
    SameTail(IntToString(d.year), DateTail(d.month, d.day), IntToString(e.year), DateTail(e.month, e.day));
    IntToStringInjective(d.year, e.year);
    Field2Injective(d.month, e.month);
    Field2Injective(d.day, e.day);
  }

  /** Two concatenations with equally long tails are equal piece by piece. */
  lemma SameTail(a: string, b: string, c: string, e: string)
    requires a + b == c + e && |b| == |e|
    ensures a == c && b == e
  {
    assert a == (a + b)[..|a|];
    assert c == (c + e)[..|c|];
    assert b == (a + b)[|a|..];
    assert e == (c + e)[|c|..];
  }

  /** Below 100 the field starts with `'0'` exactly when the number has one digit. */
  lemma Field2Shape(n: nat)
    requires n < 100
    ensures |NatToString(n)| <= 2 && |Field2(n)| == 2
    ensures Field2(n)[0] == '0' <==> |NatToString(n)| == 1
  {
    if n >= 10 {
      assert NatToString(n) == NatToString(n / 10) + [DigitChar(n % 10)];
    }
  }

  /** Two-digit fields of distinct numbers below 100 differ. */
  lemma Field2Injective(m: nat, n: nat)
    requires m < 100 && n < 100 && Field2(m) == Field2(n)
    ensures m == n
  {
    Field2Shape(m);
    Field2Shape(n);
    if |NatToString(m)| == 1 {
      assert NatToString(m) == Field2(m)[1..];
      assert NatToString(n) == Field2(n)[1..];
    }
    NatToStringValue(m);
    NatToStringValue(n);
  }

  // ---------------------------------------------------------------------------
  // The dialogue log
  // ---------------------------------------------------------------------------

  /** The fields of `dialogData` that `saveLog` reads; `autoPlay` is `dialogData.translation.autoPlay`. */
  datatype DialogData = DialogData(code: string, name: string, text: string, audioText: Option<string>,
                                   timestamp: int, autoPlay: bool)

  /** A saved dialogue: the fields of `item` in `saveLog` that the model follows. */
  datatype LogItem = LogItem(id: string, code: string, name: string, text: string,
                             translatedName: string, translatedText: string, timestamp: int)

  /**
    The `item` of `saveLog`: the dialogue's id, the name and text as displayed,
    and the original code, name, text and timestamp of the dialogue data.
   */
  function ItemOf(id: string, name: string, text: string, data: DialogData): (item: LogItem)
    ensures item.id == id && item.translatedName == name && item.translatedText == text
    ensures item.code == data.code && item.name == data.name && item.text == data.text
    ensures item.timestamp == data.timestamp
  {
    LogItem(id, data.code, data.name, data.text, name, text, data.timestamp)
  }

  /** What reading the day's log file gives: nothing, a falsy value, an array (an old format) or an object. */
  datatype StoredLog = NoFile | Falsy | ArrayLog | ObjectLog(entries: map<string, LogItem>)

  /** The log `saveLog` starts from: the stored object, or `{}` for anything else. */
  function ReadLog(stored: StoredLog): (log: map<string, LogItem>)
    ensures stored.ObjectLog? ==> log == stored.entries
    ensures !stored.ObjectLog? ==> log == map[]
  {
    if stored.ObjectLog? then stored.entries else map[]
  }

  /** The channels whose dialogue may be read aloud. */
  const NpcChannels: seq<string> := ["003D", "0044", "2AB9"]

  /** The log written back and whether audio is queued. */
  datatype Saved = Saved(log: map<string, LogItem>, playAudio: bool)

  /**
    `saveLog(id, name, text, dialogData)`: audio is queued only the first time
    an id is logged, for an NPC channel, with an audio text other than `''`,
    and with auto-play on; then `log[id]` becomes the item built from the call.
   */
  function SaveLog(stored: StoredLog, id: string, name: string, text: string, data: DialogData): (r: Saved)
    ensures id in r.log && r.log[id] == ItemOf(id, name, text, data)
    ensures forall other :: other != id ==> (other in r.log <==> other in ReadLog(stored))
    ensures forall other :: other != id && other in r.log ==> r.log[other] == ReadLog(stored)[other]
    ensures r.playAudio <==> id !in ReadLog(stored) && data.code in NpcChannels && data.audioText != Some("") && data.autoPlay
  {
    var item := ItemOf(id, name, text, data);
    var log := ReadLog(stored);
    var playAudio := item.id !in log && data.code in NpcChannels && data.audioText != Some("") && data.autoPlay;
    Saved(log[item.id := item], playAudio)
  }

  /** Saving the same id again, into the log the first save wrote, never queues audio a second time. */
  lemma SecondSaveSilent(stored: StoredLog, id: string, name: string, text: string, data: DialogData,
                         name': string, text': string, data': DialogData)
    ensures !SaveLog(ObjectLog(SaveLog(stored, id, name, text, data).log), id, name', text', data').playAudio
  {
  }

  /** Saving is an upsert: saving the same dialogue twice leaves the log as saving it once. */
  lemma SaveLogIdempotent(stored: StoredLog, id: string, name: string, text: string, data: DialogData)
    ensures var once := SaveLog(stored, id, name, text, data).log;
      SaveLog(ObjectLog(once), id, name, text, data).log == once
  {
  }

  // ---------------------------------------------------------------------------
  // The dialogue markup
  // ---------------------------------------------------------------------------

  /** The `innerHTML` of `updateDialog`: the name, a separator when there is a name, then the text. */
  function InnerHtml(name: string, text: string): string
  {
    "<span>" + name + "</span>" + (if name != "" then "：<br />" else "") + "<span>" + text + "</span>"
  }

  /** When the text holds no `：`, the separator appears exactly when the name is not `''`. */
  lemma SeparatorIffName(name: string, text: string)
    requires '：' !in text
    ensures Includes(InnerHtml(name, text), "：<br />") <==> name != ""
  {
    var html := InnerHtml(name, text);
    if name != "" {
      var at := |"<span>" + name + "</span>"|;
      assert html[at..at + |"：<br />"|] == "：<br />";
      IncludesAt(html, "：<br />", at);
    } else {
      assert html == "<span></span><span>" + text + "</span>";
      assert '：' !in "<span></span><span>" && '：' !in "</span>";
      IncludesSkip(html, [], "：<br />");
      assert html + [] == html;
    }
  }

  /** What `updateDialog` hands on: the id and markup of the `add-dialog` message, and the saved log when dialogue data is given. */
  datatype Update = Update(id: string, innerHtml: string, saved: Option<Saved>)

  /**
    `updateDialog(id, name, text, dialogData)` after the script conversion
    of `name` and `text`: the dialogue shown under `id` is the markup of the
    name and text, and, only when `dialogData` is given, the log keeps under
    the same id exactly the name and text shown.
   */
  function UpdateDialog(id: string, name: string, text: string, dialogData: Option<DialogData>, stored: StoredLog): (u: Update)
    ensures u.id == id && u.innerHtml == InnerHtml(name, text)
    ensures u.saved.Some? <==> dialogData.Some?
    ensures dialogData.Some? ==> (
      && id in u.saved.value.log
      && u.saved.value.log[id].translatedName == name && u.saved.value.log[id].translatedText == text
      && u.saved.value.log[id].code == dialogData.value.code && u.saved.value.log[id].timestamp == dialogData.value.timestamp)
  {
    Update(id, InnerHtml(name, text), if dialogData.Some? then Some(SaveLog(stored, id, name, text, dialogData.value)) else None)
  }
}
