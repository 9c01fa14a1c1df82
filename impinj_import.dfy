/** The line parser of the Impinj tag-read import: a "tag,timestamp" line
    becomes a tag read, a header row is skipped, and a line that cannot be
    read leaves an error record carrying its line number.

    Two things the parser depends on are parameters: the date of today (a
    global set elsewhere) and what float() and math.modf make of a seconds
    field (floating point). */
module ImpinjImport {
  import opened PyText

  datatype Date = Date(year: int, month: int, day: int)
  datatype Time = Time(hour: int, minute: int, second: int, microsecond: int)
  datatype DateTime = DateTime(date: Date, time: Time)

  /** What float(field) and math.modf make of a seconds field: the whole
      seconds and the microseconds int() keeps of the fraction, or Infinite
      for a field float() reads as an infinity, whose whole part int()
      refuses with OverflowError. The reader returns None where float()
      raises ValueError, and for a NaN, whose int() raises ValueError. */
  datatype Seconds = Seconds(whole: int, micro: int) | Infinite

  /** How a conversion guarded by `except (IndexError, ValueError)` ends:
      with a value, with one of those errors caught, or with an OverflowError,
      which that handler lets through. */
  datatype Attempt<T> = Done(value: T) | Caught | Overflow

  /** What the parser makes of one line: nothing, a tag and its time, or an
      OverflowError that escapes parseTagTime, which then returns nothing. */
  datatype Parsed = Skipped | Read(tag: string, time: DateTime) | Raised

  /** The error records the parser appends, with the line number. */
  datatype ImportError = Unrecognised(lineNo: int) | InvalidTime(lineNo: int, text: string)

  // ---------------------------------------------------------------- calendar

  predicate IsLeap(y: int)
  {
    y % 4 == 0 && (y % 100 != 0 || y % 400 == 0)
  }

  function DaysInMonth(y: int, m: int): (n: int)
    requires 1 <= m <= 12
    ensures 28 <= n <= 31
    ensures n == 29 <==> m == 2 && IsLeap(y)
  {
    if m == 2 then (if IsLeap(y) then 29 else 28)
    else if m == 4 || m == 6 || m == 9 || m == 11 then 30
    else 31
  }

  /** What datetime.date accepts (MINYEAR is 1, MAXYEAR 9999). */
  predicate ValidDate(d: Date)
  {
    1 <= d.year <= 9999 && 1 <= d.month <= 12 && 1 <= d.day <= DaysInMonth(d.year, d.month)
  }

  /** What datetime.time accepts. */
  predicate ValidTime(t: Time)
  {
    0 <= t.hour <= 23 && 0 <= t.minute <= 59 && 0 <= t.second <= 59 && 0 <= t.microsecond <= 999999
  }

  /** Whether hour h, minute m and the seconds read make a time. */
  predicate ValidTimeOf(h: int, m: int, sec: Seconds)
  {
    sec.Seconds? && ValidTime(Time(h, m, sec.whole, sec.micro))
  }

  /** The range of a C int. datetime.time converts each argument to one and
      raises OverflowError for a value outside it, before it checks the
      range of a time. */
  const INT_MIN: int := -0x8000_0000
  const INT_MAX: int := 0x7FFF_FFFF

  predicate IsCInt(n: int)
  {
    INT_MIN <= n <= INT_MAX
  }

  /** Whether datetime.time(hour=int(hour), minute=int(minute),
      second=int(second), ...) raises OverflowError once hour and minute
      read: int() of an infinite second does, and so does an argument
      outside the range of a C int (the microseconds always fit). */
  predicate TimeOverflows(h: int, m: int, sec: Seconds)
  {
    sec.Infinite? || !IsCInt(h) || !IsCInt(m) || !IsCInt(sec.whole)
  }

  // ---------------------------------------------------------------- fields

  /** The characters sepTrans maps to a space. */
  predicate IsSeparator(c: char)
  {
    c == '/' || c == '-' || c == ':'
  }

  predicate NoSeparator(s: string)
  {
    forall k :: 0 <= k < |s| ==> !IsSeparator(s[k])
  }

  /** s.translate(sepTrans): every '/', '-' and ':' becomes a space. */
  function Translate(s: string): (r: string)
    ensures |r| == |s| && NoSeparator(r)
    ensures forall k :: 0 <= k < |s| ==> r[k] == if IsSeparator(s[k]) then ' ' else s[k]
  {
    if s == [] then [] else [if IsSeparator(s[0]) then ' ' else s[0]] + Translate(s[1..])
  }

  /** The fields of a timestamp: translated, stripped and split at whitespace. */
  function Fields(tStr: string): (r: seq<string>)
    ensures forall k :: 0 <= k < |r| ==> r[k] != [] && NoSpace(r[k]) && NoSeparator(r[k])
  {
    var t := Translate(tStr);
    StripNoSeparator(t);
    SplitNoSeparator(Strip(t), 0);
    Split(Strip(t))
  }

  /** strip() keeps a slice of its text, so no separator appears in it. */
  lemma StripNoSeparator(s: string)
    requires NoSeparator(s)
    ensures NoSeparator(Strip(s))
  {
    StripShape(s);
    var r, i := Strip(s), |s| - |LStrip(s)|;
    assert forall k :: 0 <= k < |r| ==> r[k] == s[i + k];
  }

  /** Splitting text without separators gives fields without separators. */
  lemma {:induction false} SplitNoSeparator(s: string, i: nat)
    requires i <= |s| && NoSeparator(s)
    ensures forall k :: 0 <= k < |SplitFrom(s, i)| ==> NoSeparator(SplitFrom(s, i)[k])
    decreases |s| - i
  {
    var a := SpaceEnd(s, i);
    if a < |s| {
      var b := TokenEnd(s, a);
      SplitNoSeparator(s, b);
      assert SplitFrom(s, i) == [s[a..b]] + SplitFrom(s, b);
    }
  }

  /** tag.replace(' ', '') */
  function RemoveSpaces(s: string): (r: string)
    ensures |r| <= |s|
    ensures forall k :: 0 <= k < |r| ==> r[k] != ' '
    ensures (forall k :: 0 <= k < |s| ==> s[k] != ' ') ==> r == s
  {
    if s == [] then []
    else if s[0] == ' ' then RemoveSpaces(s[1..])
    else [s[0]] + RemoveSpaces(s[1..])
  }

  /** int(f) on a field of split(): a field holds no whitespace, so int()
      reads it as a bare literal (FieldInt). */
  function Int(f: string): (r: Option<int>)
    ensures r.Some? <==> IsIntLiteral(f)
  {
    ParseIntLiteral(f)
  }

  /** On a field, int() with its stripping of whitespace and the bare
      literal reading agree. */
  lemma FieldInt(f: string)
    requires f != [] && NoSpace(f)
    ensures PyInt(f) == Int(f)
  {
    StripNoSpaceAtEnds(f);
  }

  /** [int(f) for f in fs]: every field read as an int, or None where one
      raises ValueError. */
  function Ints(fs: seq<string>): (r: Option<seq<int>>)
    ensures r.Some? ==> |r.value| == |fs| && forall k :: 0 <= k < |fs| ==> Int(fs[k]) == Some(r.value[k])
    ensures r.None? ==> exists k :: 0 <= k < |fs| && Int(fs[k]).None?
  {
    if fs == [] then Some([])
    else
      match Int(fs[0])
      case None => None
      case Some(v) =>
        match Ints(fs[1..])
        case None => None
        case Some(vs) => Some([v] + vs)
  }

  // ---------------------------------------------------------------- layouts

  /** Whether year month day hour minute and the seconds make a datetime. */
  predicate ValidDateTime(v: seq<int>, sec: Seconds)
    requires |v| == 5
  {
    ValidDate(Date(v[0], v[1], v[2])) && ValidTimeOf(v[3], v[4], sec)
  }

  /** The first layout: exactly six fields, year month day hour minute
      seconds, all of which datetime.datetime accepts. Whatever it raises,
      OverflowError included, the bare except catches. */
  function SixFields(fields: seq<string>, seconds: string -> Option<Seconds>): (r: Option<DateTime>)
    ensures r.Some? ==> (
      && |fields| == 6 && ValidDate(r.value.date) && ValidTime(r.value.time)
      && Ints(fields[..5]) == Some([r.value.date.year, r.value.date.month, r.value.date.day, r.value.time.hour, r.value.time.minute])
      && seconds(fields[5]) == Some(Seconds(r.value.time.second, r.value.time.microsecond)))
    ensures r.None? ==> (
      || |fields| != 6 || Ints(fields[..5]).None? || seconds(fields[5]).None?
      || !ValidDateTime(Ints(fields[..5]).value, seconds(fields[5]).value))
  {
    if |fields| != 6 then None
    else
      match Ints(fields[..5])
      case None => None
      case Some(v) =>
        match seconds(fields[5])
        case None => None
        case Some(sec) =>
          assert v == [v[0], v[1], v[2], v[3], v[4]];
          if ValidDateTime(v, sec) then Some(DateTime(Date(v[0], v[1], v[2]), Time(v[3], v[4], sec.whole, sec.micro)))
          else None
  }

  /** The date of the second layout: the last three fields when they are a
      date in 1900..3000, otherwise today. */
  function FallbackDate(fields: seq<string>, today: Date): (d: Date)
    ensures d == today || (|fields| >= 3 && 1900 <= d.year <= 3000 && 1 <= d.month <= 12 && 1 <= d.day <= 31 && ValidDate(d))
    ensures d != today ==> Ints(fields[|fields| - 3..]) == Some([d.year, d.month, d.day])
  {
    if |fields| < 3 then today
    else
      match Ints(fields[|fields| - 3..])
      case None => today
      case Some(v) =>
        assert v == [v[0], v[1], v[2]];
        var d := Date(v[0], v[1], v[2]);
        if 1900 <= d.year <= 3000 && 1 <= d.month <= 12 && 1 <= d.day <= 31 && ValidDate(d) then d else today
  }

  /** datetime.time(hour=int(hour), minute=int(minute), second=int(second),
      microsecond=int(microsecond)) on the texts of three fields, once
      float() and math.modf have read the seconds: a ValueError where one
      does not read or they are not a time, an OverflowError where they do
      not fit. */
  function TimeOf(hour: string, minute: string, second: string, seconds: string -> Option<Seconds>): (t: Attempt<Time>)
    ensures t.Done? ==> (
      && ValidTime(t.value) && Int(hour) == Some(t.value.hour) && Int(minute) == Some(t.value.minute)
      && seconds(second) == Some(Seconds(t.value.second, t.value.microsecond)))
    ensures t.Overflow? <==> (
      && seconds(second).Some? && Int(hour).Some? && Int(minute).Some?
      && TimeOverflows(Int(hour).value, Int(minute).value, seconds(second).value))
    ensures t.Caught? ==> (
      || Int(hour).None? || Int(minute).None? || seconds(second).None?
      || !ValidTimeOf(Int(hour).value, Int(minute).value, seconds(second).value))
  {
    match seconds(second)
    case None => Caught
    case Some(sec) =>
      match Int(hour)
      case None => Caught
      case Some(h) =>
        match Int(minute)
        case None => Caught
        case Some(m) =>
          if TimeOverflows(h, m, sec) then Overflow
          else if ValidTimeOf(h, m, sec) then Done(Time(h, m, sec.whole, sec.micro))
          else Caught
  }

  /** The time of the second layout: hour, minute and seconds from fields
      3, 4 and 5. A ValueError or IndexError where they are missing or not a
      time is caught; an OverflowError where they do not fit is not. */
  function FallbackTime(fields: seq<string>, seconds: string -> Option<Seconds>): (t: Attempt<Time>)
    ensures t.Done? ==> (
      && |fields| >= 6 && ValidTime(t.value)
      && Int(fields[3]) == Some(t.value.hour) && Int(fields[4]) == Some(t.value.minute)
      && seconds(fields[5]) == Some(Seconds(t.value.second, t.value.microsecond)))
    ensures t.Overflow? <==> (
      && |fields| >= 6 && seconds(fields[5]).Some? && Int(fields[3]).Some? && Int(fields[4]).Some?
      && TimeOverflows(Int(fields[3]).value, Int(fields[4]).value, seconds(fields[5]).value))
    ensures t.Caught? ==> (
      || |fields| < 6 || Int(fields[3]).None? || Int(fields[4]).None? || seconds(fields[5]).None?
      || !ValidTimeOf(Int(fields[3]).value, Int(fields[4]).value, seconds(fields[5]).value))
  {
    if |fields| < 6 then Caught
    else TimeOf(fields[3], fields[4], fields[5], seconds)
  }

  // ---------------------------------------------------------------- parseTagTime

  /** parseTagTime once the line has a tag and a timestamp field: the six-field
      layout if it reads, otherwise the date from the last three fields (or
      today) and the time from fields 3 to 5; an invalid-time record with the
      timestamp as given when that time does not read either, and nothing
      at all when it raises OverflowError. */
  function ParseTimestamp(tag: string, tStr: string, lineNo: int, today: Date, seconds: string -> Option<Seconds>)
    : (r: (Parsed, Option<ImportError>))
    ensures SixFields(Fields(tStr), seconds).Some? ==> r == (Read(RemoveSpaces(tag), SixFields(Fields(tStr), seconds).value), None)
    ensures SixFields(Fields(tStr), seconds).None? && FallbackTime(Fields(tStr), seconds).Done? ==>
      r == (Read(RemoveSpaces(tag), DateTime(FallbackDate(Fields(tStr), today), FallbackTime(Fields(tStr), seconds).value)), None)
    ensures SixFields(Fields(tStr), seconds).None? && FallbackTime(Fields(tStr), seconds).Caught? ==>
      r == (Skipped, Some(InvalidTime(lineNo, tStr)))
    ensures SixFields(Fields(tStr), seconds).None? && FallbackTime(Fields(tStr), seconds).Overflow? ==>
      r == (Raised, None)
  {
    var fields := Fields(tStr);
    match SixFields(fields, seconds)
    case Some(dt) => (Read(RemoveSpaces(tag), dt), None)
    case None =>
      match FallbackTime(fields, seconds)
      case Caught => (Skipped, Some(InvalidTime(lineNo, tStr)))
      case Overflow => (Raised, None)
      case Done(t) => (Read(RemoveSpaces(tag), DateTime(FallbackDate(fields, today), t)), None)
  }

  /** parseTagTime: the outcome for the line and the error record it appends,
      if any. */
  function Parse(line: string, lineNo: int, today: Date, seconds: string -> Option<Seconds>): (r: (Parsed, Option<ImportError>))
    ensures !Contains(line, ',') ==> r == (Skipped, Some(Unrecognised(lineNo)))
    ensures Contains(line, ',') && StartsWith(SplitOn(line, ',')[0], "Tag") ==> r == (Skipped, None)
    ensures Contains(line, ',') && !StartsWith(SplitOn(line, ',')[0], "Tag") ==>
      r == ParseTimestamp(SplitOn(line, ',')[0], SplitOn(line, ',')[1], lineNo, today, seconds)
  {
    var pieces := SplitOn(line, ',');
    if |pieces| < 2 then (Skipped, Some(Unrecognised(lineNo)))
    else if StartsWith(pieces[0], "Tag") then (Skipped, None)
    else ParseTimestamp(pieces[0], pieces[1], lineNo, today, seconds)
  }

  // ---------------------------------------------------------------- the layout written out

  /** A timestamp in the reader's layout "yyyy-mm-dd hh:mm:" followed by the
      seconds as text. */
  function Stamp(d: Date, hour: int, minute: int, secText: string): string
  {
    IntToStr(d.year) + "-" + IntToStr(d.month) + "-" + IntToStr(d.day) + " "
      + IntToStr(hour) + ":" + IntToStr(minute) + ":" + secText
  }

  lemma TranslateAppend(a: string, b: string)
    ensures Translate(a + b) == Translate(a) + Translate(b)
  {
    var l, r := Translate(a + b), Translate(a) + Translate(b);
    assert forall k :: 0 <= k < |a| ==> (a + b)[k] == a[k] && r[k] == Translate(a)[k];
    assert forall k :: |a| <= k < |a + b| ==> (a + b)[k] == b[k - |a|] && r[k] == Translate(b)[k - |a|];
  }

  lemma TranslateKeeps(s: string)
    requires NoSeparator(s)
    ensures Translate(s) == s
  {
    var t := Translate(s);
    assert forall k :: 0 <= k < |s| ==> t[k] == s[k];
  }

  /** The digits str() writes for a number that is not negative. */
  lemma DigitsText(n: int)
    requires n >= 0
    ensures IntToStr(n) != [] && NoSpace(IntToStr(n)) && NoSeparator(IntToStr(n)) && !Contains(IntToStr(n), ',')
    ensures Int(IntToStr(n)) == Some(n)
  {
    ParseNatDigits(n);
    var ds := IntToStr(n);
    assert forall k :: 0 <= k < |ds| ==> IsDigit(ds[k]);
  }

  predicate IsField(p: string)
  {
    p != [] && NoSpace(p) && NoSeparator(p)
  }

  /** Translating text that ends in a separator or a space followed by a
      field: the separator becomes a space and the field is kept. */
  lemma TranslateStep(x: string, sep: string, p: string)
    requires |sep| == 1 && (IsSeparator(sep[0]) || sep[0] == ' ') && IsField(p)
    ensures Translate(x + sep + p) == Translate(x) + " " + p
  {
    TranslateAppend(x + sep, p);
    TranslateAppend(x, sep);
    TranslateKeeps(p);
    assert Translate(sep) == " ";
  }

  /** Translating the stamp layout puts a single space between its six parts. */
  lemma TranslateLayout(p0: string, p1: string, p2: string, p3: string, p4: string, p5: string)
    requires IsField(p0) && IsField(p1) && IsField(p2) && IsField(p3) && IsField(p4) && IsField(p5)
    ensures Translate(p0 + "-" + p1 + "-" + p2 + " " + p3 + ":" + p4 + ":" + p5)
      == p0 + " " + p1 + " " + p2 + " " + p3 + " " + p4 + " " + p5
  {
    TranslateKeeps(p0);
    TranslateStep(p0, "-", p1);
    TranslateStep(p0 + "-" + p1, "-", p2);
    TranslateStep(p0 + "-" + p1 + "-" + p2, " ", p3);
    TranslateStep(p0 + "-" + p1 + "-" + p2 + " " + p3, ":", p4);
    TranslateStep(p0 + "-" + p1 + "-" + p2 + " " + p3 + ":" + p4, ":", p5);
  }

  /** Six fields joined by single spaces split back into the six fields. */
  lemma {:induction false} JoinedFields(p0: string, p1: string, p2: string, p3: string, p4: string, p5: string)
    requires IsField(p0) && IsField(p1) && IsField(p2) && IsField(p3) && IsField(p4) && IsField(p5)
    ensures var joined := p0 + " " + p1 + " " + p2 + " " + p3 + " " + p4 + " " + p5;
      Split(joined) == [p0, p1, p2, p3, p4, p5] && Split(Strip(joined)) == [p0, p1, p2, p3, p4, p5]
  {
    var parts := [p0, p1, p2, p3, p4, p5];
    var joined := Join(parts, " ");
    assert Join(parts[5..], " ") == p5;
    assert Join(parts[4..], " ") == p4 + " " + p5;
    assert Join(parts[3..], " ") == p3 + " " + (p4 + " " + p5);
    assert Join(parts[2..], " ") == p2 + " " + (p3 + " " + (p4 + " " + p5));
    assert Join(parts[1..], " ") == p1 + " " + (p2 + " " + (p3 + " " + (p4 + " " + p5)));
    assert joined == p0 + " " + p1 + " " + p2 + " " + p3 + " " + p4 + " " + p5;
    SplitJoin(parts, " ");
    assert joined[0] == p0[0];
    assert joined[|joined| - 1] == p5[|p5| - 1];
    StripNoSpaceAtEnds(joined);
  }

  /** The fields of the stamp layout are its six parts. */
  lemma LayoutFields(p0: string, p1: string, p2: string, p3: string, p4: string, p5: string)
    requires IsField(p0) && IsField(p1) && IsField(p2) && IsField(p3) && IsField(p4) && IsField(p5)
    ensures Fields(p0 + "-" + p1 + "-" + p2 + " " + p3 + ":" + p4 + ":" + p5) == [p0, p1, p2, p3, p4, p5]
  {
    TranslateLayout(p0, p1, p2, p3, p4, p5);
    JoinedFields(p0, p1, p2, p3, p4, p5);
  }

  /** Six fields that read as the numbers and the seconds of a valid date
      and time are that date and time in the first layout. */
  lemma SixFieldsRead(p0: string, p1: string, p2: string, p3: string, p4: string, p5: string,
                      dt: DateTime, seconds: string -> Option<Seconds>)
    requires ValidDate(dt.date) && ValidTime(dt.time)
    requires Int(p0) == Some(dt.date.year) && Int(p1) == Some(dt.date.month)
    requires Int(p2) == Some(dt.date.day) && Int(p3) == Some(dt.time.hour)
    requires Int(p4) == Some(dt.time.minute)
    requires seconds(p5) == Some(Seconds(dt.time.second, dt.time.microsecond))
    ensures SixFields([p0, p1, p2, p3, p4, p5], seconds) == Some(dt)
  {
    var fields := [p0, p1, p2, p3, p4, p5];
    var v := [dt.date.year, dt.date.month, dt.date.day, dt.time.hour, dt.time.minute];
    IntsAll(fields[..5], v);
  }

  /** Six fields laid out as a stamp read as the date and time they spell. */
  lemma LayoutSixFields(p0: string, p1: string, p2: string, p3: string, p4: string, p5: string,
                        dt: DateTime, seconds: string -> Option<Seconds>)
    requires IsField(p0) && IsField(p1) && IsField(p2) && IsField(p3) && IsField(p4) && IsField(p5)
    requires ValidDate(dt.date) && ValidTime(dt.time)
    requires Int(p0) == Some(dt.date.year) && Int(p1) == Some(dt.date.month)
    requires Int(p2) == Some(dt.date.day) && Int(p3) == Some(dt.time.hour)
    requires Int(p4) == Some(dt.time.minute)
    requires seconds(p5) == Some(Seconds(dt.time.second, dt.time.microsecond))
    ensures SixFields(Fields(p0 + "-" + p1 + "-" + p2 + " " + p3 + ":" + p4 + ":" + p5), seconds) == Some(dt)
  {
    LayoutFields(p0, p1, p2, p3, p4, p5);
    SixFieldsRead(p0, p1, p2, p3, p4, p5, dt, seconds);
  }

  /** The six fields of a stamp with a valid date and time read as that date
      and time in the first layout. */
  lemma StampSixFields(dt: DateTime, secText: string, seconds: string -> Option<Seconds>)
    requires ValidDate(dt.date) && ValidTime(dt.time) && IsField(secText)
    requires seconds(secText) == Some(Seconds(dt.time.second, dt.time.microsecond))
    ensures SixFields(Fields(Stamp(dt.date, dt.time.hour, dt.time.minute, secText)), seconds) == Some(dt)
  {
    DigitsText(dt.date.year); DigitsText(dt.date.month); DigitsText(dt.date.day);
    DigitsText(dt.time.hour); DigitsText(dt.time.minute);
    LayoutSixFields(IntToStr(dt.date.year), IntToStr(dt.date.month), IntToStr(dt.date.day),
                    IntToStr(dt.time.hour), IntToStr(dt.time.minute), secText, dt, seconds);
  }

  /** Fields that each read as an int read together as the list of them. */
  lemma {:induction false} IntsAll(fs: seq<string>, v: seq<int>)
    requires |fs| == |v|
    requires forall k :: 0 <= k < |fs| ==> Int(fs[k]) == Some(v[k])
    ensures Ints(fs) == Some(v)
  {
    if fs != [] {
      IntsAll(fs[1..], v[1..]);
      assert v == [v[0]] + v[1..];
    }
  }

  /** A line "tag,stamp" with a valid date and time reads back as that tag
      (without its spaces) and that date and time, whatever today is. */
  lemma StampRead(tag: string, dt: DateTime, secText: string, lineNo: int, today: Date,
                  seconds: string -> Option<Seconds>)
    requires ValidDate(dt.date) && ValidTime(dt.time)
    requires !Contains(tag, ',') && !StartsWith(tag, "Tag")
    requires IsField(secText) && !Contains(secText, ',')
    requires seconds(secText) == Some(Seconds(dt.time.second, dt.time.microsecond))
    ensures Parse(tag + "," + Stamp(dt.date, dt.time.hour, dt.time.minute, secText), lineNo, today, seconds)
      == (Read(RemoveSpaces(tag), dt), None)
  {
    var stamp := Stamp(dt.date, dt.time.hour, dt.time.minute, secText);
    StampSixFields(dt, secText, seconds);
    NoCommaInStamp(dt.date, dt.time.hour, dt.time.minute, secText);
    SplitAtComma(tag, stamp);
  }

  /** A stamp whose hour does not fit a C int: the bare except catches the
      OverflowError of datetime.datetime, but the one datetime.time raises in
      the fallback escapes parseTagTime, and no error is recorded. */
  lemma HugeHourRaises(tag: string, d: Date, hour: int, minute: int, secText: string, lineNo: int,
                       today: Date, seconds: string -> Option<Seconds>)
    requires ValidDate(d) && hour > INT_MAX && 0 <= minute <= 59
    requires !Contains(tag, ',') && !StartsWith(tag, "Tag")
    requires IsField(secText) && !Contains(secText, ',') && seconds(secText).Some?
    ensures Parse(tag + "," + Stamp(d, hour, minute, secText), lineNo, today, seconds) == (Raised, None)
  {
    StampOverflows(d, hour, minute, secText, seconds);
    NoCommaInStamp(d, hour, minute, secText);
    TimestampRaises(tag, Stamp(d, hour, minute, secText), lineNo, today, seconds);
  }

  lemma StampOverflows(d: Date, hour: int, minute: int, secText: string, seconds: string -> Option<Seconds>)
    requires ValidDate(d) && hour > INT_MAX && 0 <= minute <= 59
    requires IsField(secText) && !Contains(secText, ',') && seconds(secText).Some?
    ensures SixFields(Fields(Stamp(d, hour, minute, secText)), seconds).None?
    ensures FallbackTime(Fields(Stamp(d, hour, minute, secText)), seconds).Overflow?
  {
    DigitsText(d.year); DigitsText(d.month); DigitsText(d.day);
    DigitsText(hour); DigitsText(minute);
    LayoutOverflows(IntToStr(d.year), IntToStr(d.month), IntToStr(d.day), IntToStr(hour), IntToStr(minute), secText, seconds);
  }

  lemma LayoutOverflows(p0: string, p1: string, p2: string, p3: string, p4: string, p5: string,
                        seconds: string -> Option<Seconds>)
    requires IsField(p0) && IsField(p1) && IsField(p2) && IsField(p3) && IsField(p4) && IsField(p5)
    requires Int(p3).Some? && !IsCInt(Int(p3).value) && Int(p4).Some? && seconds(p5).Some?
    ensures SixFields(Fields(p0 + "-" + p1 + "-" + p2 + " " + p3 + ":" + p4 + ":" + p5), seconds).None?
    ensures FallbackTime(Fields(p0 + "-" + p1 + "-" + p2 + " " + p3 + ":" + p4 + ":" + p5), seconds).Overflow?
  {
    LayoutFields(p0, p1, p2, p3, p4, p5);
    OverflowFields([p0, p1, p2, p3, p4, p5], seconds);
  }

  /** A line whose timestamp raises OverflowError in the fallback. */
  lemma TimestampRaises(tag: string, tStr: string, lineNo: int, today: Date, seconds: string -> Option<Seconds>)
    requires !Contains(tag, ',') && !StartsWith(tag, "Tag") && !Contains(tStr, ',')
    requires SixFields(Fields(tStr), seconds).None? && FallbackTime(Fields(tStr), seconds).Overflow?
    ensures Parse(tag + "," + tStr, lineNo, today, seconds) == (Raised, None)
  {
    SplitAtComma(tag, tStr);
  }

  /** Six fields whose hour reads as a number too wide for a C int: not the
      first layout, and an OverflowError in the second. */
  lemma OverflowFields(fields: seq<string>, seconds: string -> Option<Seconds>)
    requires |fields| == 6 && Int(fields[3]).Some? && !IsCInt(Int(fields[3]).value)
    requires Int(fields[4]).Some? && seconds(fields[5]).Some?
    ensures SixFields(fields, seconds).None? && FallbackTime(fields, seconds).Overflow?
  {
  }

  lemma NoCommaInStamp(d: Date, hour: int, minute: int, secText: string)
    requires d.year >= 0 && d.month >= 0 && d.day >= 0 && hour >= 0 && minute >= 0
    requires !Contains(secText, ',')
    ensures !Contains(Stamp(d, hour, minute, secText), ',')
  {
    DigitsText(d.year); DigitsText(d.month); DigitsText(d.day);
    DigitsText(hour); DigitsText(minute);
  }

  /** line.split(',') on "tag,rest" with no other comma is [tag, rest]. */
  lemma SplitAtComma(tag: string, rest: string)
    requires !Contains(tag, ',') && !Contains(rest, ',')
    ensures SplitOn(tag + "," + rest, ',') == [tag, rest]
  {
    var line := tag + "," + rest;
    assert FindFrom(line, ',', 0) == |tag| by {
      FindComma(line, tag);
    }
    assert line[|tag| + 1..] == rest;
    assert line[..|tag|] == tag;
  }

  lemma FindComma(line: string, tag: string)
    requires !Contains(tag, ',') && |tag| < |line| && line[..|tag|] == tag && line[|tag|] == ','
    ensures FindFrom(line, ',', 0) == |tag|
  {
    assert forall k :: 0 <= k < |tag| ==> line[k] == tag[k] && tag[k] != ',';
  }

  /** The caller's errors list, which parseTagTime appends to. */
  class ErrorLog {
    var entries: seq<ImportError>

    constructor()
      ensures entries == []
    {
      entries := [];
    }
  }

  /** parseTagTime(line, lineNo, errors); Raised stands for the
      OverflowError that reaches the caller, with the list unchanged. */
  method ParseTagTime(line: string, lineNo: int, errors: ErrorLog, today: Date, seconds: string -> Option<Seconds>)
    returns (r: Parsed)
    modifies errors
    ensures r == Parse(line, lineNo, today, seconds).0
    ensures Parse(line, lineNo, today, seconds).1.Some? ==>
      errors.entries == old(errors.entries) + [Parse(line, lineNo, today, seconds).1.value]
    ensures Parse(line, lineNo, today, seconds).1.None? ==> errors.entries == old(errors.entries)
  {
    var outcome := Parse(line, lineNo, today, seconds);
    r := outcome.0;
    if outcome.1.Some? {
      errors.entries := errors.entries + [outcome.1.value];
    }
  }

  // ---------------------------------------------------------------- timeFromStr

  /** timeFromStr: the last three separator-split fields as hour, minute and
      seconds on today's date; None (Caught) where they are missing or not a
      time, and an OverflowError that escapes where they do not fit. */
  function TimeFromStr(tStr: string, today: Date, seconds: string -> Option<Seconds>): (r: Attempt<DateTime>)
    ensures r.Done? ==> (
      && r.value.date == today && ValidTime(r.value.time)
      && var fs := Split(Translate(tStr));
         && |fs| >= 3
         && Int(fs[|fs| - 3]) == Some(r.value.time.hour) && Int(fs[|fs| - 2]) == Some(r.value.time.minute)
         && seconds(fs[|fs| - 1]) == Some(Seconds(r.value.time.second, r.value.time.microsecond)))
    ensures r.Overflow? <==> (var fs := Split(Translate(tStr));
      && |fs| >= 3 && seconds(fs[|fs| - 1]).Some? && Int(fs[|fs| - 3]).Some? && Int(fs[|fs| - 2]).Some?
      && TimeOverflows(Int(fs[|fs| - 3]).value, Int(fs[|fs| - 2]).value, seconds(fs[|fs| - 1]).value))
    ensures r.Caught? ==> (var fs := Split(Translate(tStr));
      || |fs| < 3 || Int(fs[|fs| - 3]).None? || Int(fs[|fs| - 2]).None? || seconds(fs[|fs| - 1]).None?
      || !ValidTimeOf(Int(fs[|fs| - 3]).value, Int(fs[|fs| - 2]).value, seconds(fs[|fs| - 1]).value))
  {
    var fs := Split(Translate(tStr));
    if |fs| < 3 then Caught
    else
      match TimeOf(fs[|fs| - 3], fs[|fs| - 2], fs[|fs| - 1], seconds)
      case Done(t) => Done(DateTime(today, t))
      case Caught => Caught
      case Overflow => Overflow
  }

  /** timeFromStr on a full stamp reads its time part, on today's date. */
  lemma StampTime(dt: DateTime, secText: string, today: Date, seconds: string -> Option<Seconds>)
    requires ValidDate(dt.date) && ValidTime(dt.time) && IsField(secText)
    requires seconds(secText) == Some(Seconds(dt.time.second, dt.time.microsecond))
    ensures TimeFromStr(Stamp(dt.date, dt.time.hour, dt.time.minute, secText), today, seconds) == Done(DateTime(today, dt.time))
  {
    DigitsText(dt.date.year); DigitsText(dt.date.month); DigitsText(dt.date.day);
    DigitsText(dt.time.hour); DigitsText(dt.time.minute);
    LayoutTime(IntToStr(dt.date.year), IntToStr(dt.date.month), IntToStr(dt.date.day),
               IntToStr(dt.time.hour), IntToStr(dt.time.minute), secText, dt.time, today, seconds);
  }

  lemma LayoutTime(p0: string, p1: string, p2: string, p3: string, p4: string, p5: string,
                   t: Time, today: Date, seconds: string -> Option<Seconds>)
    requires IsField(p0) && IsField(p1) && IsField(p2) && IsField(p3) && IsField(p4) && IsField(p5)
    requires ValidTime(t) && Int(p3) == Some(t.hour) && Int(p4) == Some(t.minute)
    requires seconds(p5) == Some(Seconds(t.second, t.microsecond))
    ensures TimeFromStr(p0 + "-" + p1 + "-" + p2 + " " + p3 + ":" + p4 + ":" + p5, today, seconds) == Done(DateTime(today, t))
  {
    TranslateLayout(p0, p1, p2, p3, p4, p5);
    JoinedFields(p0, p1, p2, p3, p4, p5);
    TimeOfValid(p3, p4, p5, t, seconds);
  }

  /** Three fields that read as a valid time are that time. */
  lemma TimeOfValid(hour: string, minute: string, second: string, t: Time, seconds: string -> Option<Seconds>)
    requires ValidTime(t) && Int(hour) == Some(t.hour) && Int(minute) == Some(t.minute)
    requires seconds(second) == Some(Seconds(t.second, t.microsecond))
    ensures TimeOf(hour, minute, second, seconds) == Done(t)
  {
    assert !TimeOverflows(t.hour, t.minute, Seconds(t.second, t.microsecond));
  }
}
