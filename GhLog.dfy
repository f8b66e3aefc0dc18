/**
 The data logger (GhLogData). The `ctime` text is built from a broken-down
 local time in the layout of the C standard's `asctime` (ISO C11 section
 7.27.3.1, format "%.3s %.3s%3d %.2d:%.2d:%.2d %d\n"); GhLogData copies it
 into a buffer, turns the separators at indices 3, 7, 10 and 19 into commas
 and appends one record to the log file. Each log file is a sequence of
 records; the numbers in a record stay `real`, and their "%5.1lf"/"%6.1lf"
 renderings are inputs of the text layout.
 */
module GhLog {
  import opened GhDefs

  const WEEKDAYS: seq<string> := ["Sun", "Mon", "Tue", "Wed", "Thu", "Fri", "Sat"]
  const MONTHS: seq<string> := ["Jan", "Feb", "Mar", "Apr", "May", "Jun",
                                "Jul", "Aug", "Sep", "Oct", "Nov", "Dec"]

  /** The broken-down local time `ctime` formats; `year` is the calendar year (tm_year + 1900). */
  datatype Tm = Tm(wday: int, mon: int, mday: int, hour: int, min: int, sec: int, year: int)

  /** Field ranges of a broken-down time, with a four-digit year. */
  predicate ValidTm(t: Tm)
  {
    0 <= t.wday < 7 && 0 <= t.mon < 12 && 1 <= t.mday <= 31 &&
    0 <= t.hour < 24 && 0 <= t.min < 60 && 0 <= t.sec <= 60 &&
    1000 <= t.year <= 9999
  }

  function DigitChar(d: int): (c: char)
    requires 0 <= d <= 9
    ensures '0' <= c <= '9'
  {
    "0123456789"[d]
  }

  /** "%.2d" of a number below 100. */
  function TwoDigits(n: int): (s: string)
    requires 0 <= n <= 99
    ensures |s| == 2 && forall i :: 0 <= i < 2 ==> '0' <= s[i] <= '9'
  {
    [DigitChar(n / 10), DigitChar(n % 10)]
  }

  /** "%d" of a four-digit number. */
  function FourDigits(n: int): (s: string)
    requires 1000 <= n <= 9999
    ensures |s| == 4 && forall i :: 0 <= i < 4 ==> '0' <= s[i] <= '9'
  {
    TwoDigits(n / 100) + TwoDigits(n % 100)
  }

  /** The last two characters of "%3d" of a day of the month: a space stands for a missing tens digit. */
  function DayText(n: int): (s: string)
    requires 1 <= n <= 31
    ensures |s| == 2 && s[1] != ' '
  {
    [if n < 10 then ' ' else DigitChar(n / 10), DigitChar(n % 10)]
  }

  /** "hh:mm:ss". */
  function ClockText(t: Tm): (s: string)
    requires ValidTm(t)
    ensures |s| == 8
  {
    TwoDigits(t.hour) + ":" + TwoDigits(t.min) + ":" + TwoDigits(t.sec)
  }

  /** The five fields of the date: weekday, month, day, clock time, year. */
  function DateFields(t: Tm): (fs: seq<string>)
    requires ValidTm(t)
    ensures |fs| == 5
  {
    [WEEKDAYS[t.wday], MONTHS[t.mon], DayText(t.mday), ClockText(t), FourDigits(t.year)]
  }

  /**
   The text `ctime` returns: 24 characters and a newline, with a space at
   indices 3, 7, 10 and 19 (the "%3d" of the day begins with a space, as a
   day has at most two digits).
   */
  function CtimeText(t: Tm): (s: string)
    requires ValidTm(t)
    ensures |s| == 25
    ensures s[3] == ' ' && s[7] == ' ' && s[10] == ' ' && s[19] == ' ' && s[24] == '\n'
  {
    var fs := DateFields(t);
    fs[0] + " " + fs[1] + " " + fs[2] + " " + fs[3] + " " + fs[4] + "\n"
  }

  /** `strcpy(buf, src)` writes the text and its terminating NUL: it stays inside a buffer of `bufSize` chars only if this holds. */
  predicate StrcpyFits(bufSize: nat, src: string)
  {
    |src| + 1 <= bufSize
  }

  /**
   As written, GhLogData copies the `ctime` text into `char ltime[CTIMESTRSZ]`
   with CTIMESTRSZ = 25; the text and its NUL take 26 chars, one more than the
   buffer holds, for every time with a four-digit year.
   */
  lemma CtimeOverflowsLogBuffer(t: Tm)
    requires ValidTm(t)
    ensures !StrcpyFits(CTIMESTRSZ, CtimeText(t))
    ensures |CtimeText(t)| + 1 == CTIMESTRSZ + 1
  {
  }

  /** A concrete instance: Wednesday 30 June 1993, 21:49:08. */
  lemma CtimeOverflowExample()
    ensures CtimeText(Tm(3, 5, 30, 21, 49, 8, 1993)) == "Wed Jun 30 21:49:08 1993\n"
    ensures !StrcpyFits(CTIMESTRSZ, CtimeText(Tm(3, 5, 30, 21, 49, 8, 1993)))
  {
    var t := Tm(3, 5, 30, 21, 49, 8, 1993);
    assert DayText(30) == "30";
    assert ClockText(t) == "21:49:08" by {
      assert TwoDigits(21) == "21" && TwoDigits(49) == "49" && TwoDigits(8) == "08";
    }
    assert FourDigits(1993) == "1993" by {
      assert TwoDigits(19) == "19" && TwoDigits(93) == "93";
    }
    assert DateFields(t) == ["Wed", "Jun", "30", "21:49:08", "1993"];
  }

  /** The buffer size the copy needs: the 25 characters of the `ctime` text and the NUL. */
  const LOG_TIME_BUF_SIZE: nat := 26

  /** The buffer after the `strcpy`, sized so that the copy fits. */
  function TimeBuffer(t: Tm): (buf: seq<char>)
    requires ValidTm(t)
    ensures StrcpyFits(LOG_TIME_BUF_SIZE, CtimeText(t))
    ensures |buf| == LOG_TIME_BUF_SIZE
    ensures buf[..25] == CtimeText(t) && buf[25] == '\0'
  {
    CtimeText(t) + ['\0']
  }

  /** The indices GhLogData overwrites with commas. */
  predicate IsSeparator(i: int)
  {
    i == 3 || i == 7 || i == 10 || i == 19
  }

  /**
   The 24-character time stamp of a record: the `ctime` text with the
   separators at indices 3, 7, 10 and 19 made commas, printed with "%.24s".
   */
  function LogTimestamp(t: Tm): (stamp: string)
    requires ValidTm(t)
    ensures |stamp| == 24
    ensures forall i :: 0 <= i < 24 ==> stamp[i] == if IsSeparator(i) then ',' else CtimeText(t)[i]
  {
    TimeBuffer(t)[3 := ','][7 := ','][10 := ','][19 := ','][..24]
  }

  /** Fields joined by commas. */
  function Join(fs: seq<string>): (s: string)
    requires |fs| >= 1
  {
    if |fs| == 1 then fs[0] else Join(fs[..|fs| - 1]) + "," + fs[|fs| - 1]
  }

  /** A line split at each comma; a line without commas is one field. */
  function Split(s: string): (fs: seq<string>)
    ensures |fs| >= 1
  {
    if s == [] then [""]
    else
      var rest := Split(s[1..]);
      if s[0] == ',' then [""] + rest else [[s[0]] + rest[0]] + rest[1..]
  }

  predicate CommaFree(s: string)
  {
    forall i :: 0 <= i < |s| ==> s[i] != ','
  }

  /** Splitting at a comma splits the two sides independently. */
  lemma {:induction false} SplitConcat(a: string, b: string)
    ensures Split(a + "," + b) == Split(a) + Split(b)
  {
    if a == [] {
      assert a + "," + b == [','] + b;
      assert ([','] + b)[1..] == b;
    } else {
      assert (a + "," + b)[1..] == a[1..] + "," + b;
      SplitConcat(a[1..], b);
    }
  }

  /** A comma-free text is a single field. */
  lemma {:induction false} SplitCommaFree(a: string)
    requires CommaFree(a)
    ensures Split(a) == [a]
  {
    if a != [] {
      SplitCommaFree(a[1..]);
      assert [a[0]] + a[1..] == a;
    }
  }

  /** Split undoes Join when no field contains a comma. */
  lemma {:induction false} SplitJoin(fs: seq<string>)
    requires |fs| >= 1
    requires forall k :: 0 <= k < |fs| ==> CommaFree(fs[k])
    ensures Split(Join(fs)) == fs
  {
    var n := |fs|;
    if n == 1 {
      SplitCommaFree(fs[0]);
    } else {
      SplitJoin(fs[..n - 1]);
      SplitConcat(Join(fs[..n - 1]), fs[n - 1]);
      SplitCommaFree(fs[n - 1]);
      assert fs[..n - 1] + [fs[n - 1]] == fs;
    }
  }

  /** The date fields hold letters, digits, spaces and colons only. */
  lemma DateFieldsCommaFree(t: Tm)
    requires ValidTm(t)
    ensures forall k :: 0 <= k < 5 ==> CommaFree(DateFields(t)[k])
  {
    var fs := DateFields(t);
    assert CommaFree(WEEKDAYS[t.wday]) by {
      assert forall w :: 0 <= w < 7 ==> CommaFree(WEEKDAYS[w]);
    }
    assert CommaFree(MONTHS[t.mon]) by {
      assert forall m :: 0 <= m < 12 ==> CommaFree(MONTHS[m]);
    }
  }

  predicate NewlineFree(s: string)
  {
    forall i :: 0 <= i < |s| ==> s[i] != '\n'
  }

  /** The time stamp holds no newline: `%.24s` stops before the one `ctime` ends with. */
  lemma TimestampNewlineFree(t: Tm)
    requires ValidTm(t)
    ensures NewlineFree(LogTimestamp(t))
  {
    var fs := DateFields(t);
    assert NewlineFree(WEEKDAYS[t.wday]) by {
      assert forall w :: 0 <= w < 7 ==> NewlineFree(WEEKDAYS[w]);
    }
    assert NewlineFree(MONTHS[t.mon]) by {
      assert forall m :: 0 <= m < 12 ==> NewlineFree(MONTHS[m]);
    }
    TimestampIsJoinedDate(t);
    JoinFive(fs);
    var stamp := LogTimestamp(t);
    assert '\n' !in stamp;
  }

  /** Join of five fields, unrolled. */
  lemma JoinFive(fs: seq<string>)
    requires |fs| == 5
    ensures Join(fs) == fs[0] + "," + fs[1] + "," + fs[2] + "," + fs[3] + "," + fs[4]
  {
    assert fs[..5] == fs;
    assert Join(fs[..1]) == fs[0];
    assert Join(fs[..2]) == fs[0] + "," + fs[1] by { assert fs[..2][..1] == fs[..1]; }
    assert Join(fs[..3]) == Join(fs[..2]) + "," + fs[2] by { assert fs[..3][..2] == fs[..2]; }
    assert Join(fs[..4]) == Join(fs[..3]) + "," + fs[3] by { assert fs[..4][..3] == fs[..3]; }
    assert Join(fs) == Join(fs[..4]) + "," + fs[4];
  }

  /** The time stamp is the date fields joined by commas: five comma-separated fields. */
  lemma TimestampIsJoinedDate(t: Tm)
    requires ValidTm(t)
    ensures LogTimestamp(t) == Join(DateFields(t))
  {
    var fs := DateFields(t);
    var stamp := LogTimestamp(t);
    var text := CtimeText(t);
    assert |fs[0]| == 3 && |fs[1]| == 3 by {
      assert forall w :: 0 <= w < 7 ==> |WEEKDAYS[w]| == 3;
      assert forall m :: 0 <= m < 12 ==> |MONTHS[m]| == 3;
    }
    var joined := fs[0] + "," + fs[1] + "," + fs[2] + "," + fs[3] + "," + fs[4];
    JoinFive(fs);
    assert text == fs[0] + " " + fs[1] + " " + fs[2] + " " + fs[3] + " " + fs[4] + "\n";
    forall i | 0 <= i < 24
      ensures stamp[i] == joined[i]
    {
      if i < 3 {
        assert joined[i] == fs[0][i] == text[i];
      } else if 3 < i < 7 {
        assert joined[i] == fs[1][i - 4] == text[i];
      } else if 7 < i < 10 {
        assert joined[i] == fs[2][i - 8] == text[i];
      } else if 10 < i < 19 {
        assert joined[i] == fs[3][i - 11] == text[i];
      } else if 19 < i {
        assert joined[i] == fs[4][i - 20] == text[i];
      }
    }
  }

  /** One log record: the rewritten time stamp and the three readings. */
  datatype LogRecord = LogRecord(stamp: string, temperature: real, humidity: real, pressure: real)

  /** The record GhLogData writes for a reading taken at local time `t`. */
  function RecordOf(ghdata: Reading, t: Tm): (rec: LogRecord)
    requires ValidTm(t)
    ensures |rec.stamp| == 24
    ensures rec.temperature == ghdata.temperature && rec.humidity == ghdata.humidity && rec.pressure == ghdata.pressure
  {
    LogRecord(LogTimestamp(t), ghdata.temperature, ghdata.humidity, ghdata.pressure)
  }

  /**
   The text written for a record, "\n%.24s,%5.1lf,%5.1lf,%6.1lf", given the
   renderings of its three numbers.
   */
  function RecordText(rec: LogRecord, tText: string, hText: string, pText: string): string
  {
    "\n" + rec.stamp + "," + tText + "," + hText + "," + pText
  }

  /**
   A record's text is a newline followed by one line, with no newline in it,
   of eight comma-separated fields: the five date fields, then temperature,
   humidity and pressure.
   */
  lemma RecordTextFields(ghdata: Reading, t: Tm, tText: string, hText: string, pText: string)
    requires ValidTm(t)
    requires CommaFree(tText) && CommaFree(hText) && CommaFree(pText)
    requires NewlineFree(tText) && NewlineFree(hText) && NewlineFree(pText)
    ensures var line := RecordText(RecordOf(ghdata, t), tText, hText, pText);
      line[0] == '\n' && line[1..25] == LogTimestamp(t) &&
      Split(line[1..]) == DateFields(t) + [tText, hText, pText] &&
      '\n' !in line[1..]
  {
    var stamp := LogTimestamp(t);
    var line := RecordText(RecordOf(ghdata, t), tText, hText, pText);
    var df := DateFields(t);
    var fs := df + [tText, hText, pText];
    var body := stamp + "," + tText + "," + hText + "," + pText;
    assert line == "\n" + body;
    assert line[1..] == body;
    assert Join(fs) == body by {
      TimestampIsJoinedDate(t);
      assert fs[..5] == df;
      assert Join(fs[..6]) == Join(df) + "," + tText by { assert fs[..6][..5] == df; }
      assert Join(fs[..7]) == Join(fs[..6]) + "," + hText by { assert fs[..7][..6] == fs[..6]; }
      assert Join(fs) == Join(fs[..7]) + "," + pText;
    }
    DateFieldsCommaFree(t);
    SplitJoin(fs);
    TimestampNewlineFree(t);
    assert '\n' !in stamp && '\n' !in tText && '\n' !in hText && '\n' !in pText;
  }

  /** The records of file `fname`; a file never written to holds none. */
  function LogOf(logs: map<string, seq<LogRecord>>, fname: string): seq<LogRecord>
  {
    if fname in logs then logs[fname] else []
  }

  /** The log files after appending `rec` to `fname`. */
  function Appended(logs: map<string, seq<LogRecord>>, fname: string, rec: LogRecord): map<string, seq<LogRecord>>
  {
    logs[fname := LogOf(logs, fname) + [rec]]
  }

  /** An append adds exactly one record at the end of its file and leaves every other file alone. */
  lemma AppendAddsOne(logs: map<string, seq<LogRecord>>, fname: string, other: string, rec: LogRecord)
    ensures |LogOf(Appended(logs, fname, rec), fname)| == |LogOf(logs, fname)| + 1
    ensures LogOf(Appended(logs, fname, rec), fname)[..|LogOf(logs, fname)|] == LogOf(logs, fname)
    ensures LogOf(Appended(logs, fname, rec), fname)[|LogOf(logs, fname)|] == rec
    ensures other != fname ==> LogOf(Appended(logs, fname, rec), other) == LogOf(logs, other)
  {
  }

  /** The log files on disk, each an append-only sequence of records. */
  class LogFiles {
    var logs: map<string, seq<LogRecord>>

    constructor (initial: map<string, seq<LogRecord>>)
      ensures logs == initial
    {
      logs := initial;
    }

    /**
     GhLogData: when the file cannot be opened, return 0 and leave the logs
     alone; otherwise append the record for `ghdata`, stamped with the local
     time `t` of its reading time, and return 1. The `ctime` text is copied
     into the corrected buffer of LOG_TIME_BUF_SIZE = 26 chars, not the
     25-char `ltime[CTIMESTRSZ]` of the code as written; the first 24 chars,
     which are the stamp that gets written, are the same either way.
     */
    method LogData(fname: string, ghdata: Reading, t: Tm, openOk: bool) returns (status: int)
      requires ValidTm(t)
      modifies this
      ensures status == (if openOk then 1 else 0)
      ensures logs == if openOk then Appended(old(logs), fname, RecordOf(ghdata, t)) else old(logs)
    {
      if !openOk {
        return 0;
      }
      var text := TimeBuffer(t);
      var ltime := new char[LOG_TIME_BUF_SIZE](i requires 0 <= i < LOG_TIME_BUF_SIZE => text[i]);
      ltime[3] := ',';
      ltime[7] := ',';
      ltime[10] := ',';
      ltime[19] := ',';
      var stamp := ltime[..24];
      assert stamp == LogTimestamp(t);
      logs := Appended(logs, fname, LogRecord(stamp, ghdata.temperature, ghdata.humidity, ghdata.pressure));
      return 1;
    }
  }
}
