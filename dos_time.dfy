/** MS-DOS time and date stamps (APPNOTE.TXT section 4.4.6). A time packs the hour into
    bits 15-11, the minute into bits 10-5 and half the second into bits 4-0; a date packs
    the years since 1980 into bits 15-9, the month into bits 8-5 and the day into bits 4-0.
    The fields occupy disjoint bits, so the C code's shifts and ORs are the sums of
    multiples written here. Both writers stamp every entry with one fixed moment,
    12:00:00 on 28 September 2024. */
module DosTime {
  import opened Common

  datatype TimeOfDay = TimeOfDay(hour: nat, minute: nat, second: nat)
  datatype Date = Date(year: nat, month: nat, day: nat)

  predicate ValidTime(t: TimeOfDay)
  {
    t.hour < 24 && t.minute < 60 && t.second < 60 && t.second % 2 == 0
  }

  predicate ValidDate(d: Date)
  {
    1980 <= d.year < 1980 + 128 && 1 <= d.month <= 12 && 1 <= d.day <= 31
  }

  function EncodeTime(t: TimeOfDay): (r: u16)
    requires ValidTime(t)
  {
    t.hour * 0x800 + t.minute * 0x20 + t.second / 2
  }

  function DecodeTime(r: u16): TimeOfDay
  {
    TimeOfDay(r / 0x800, r / 0x20 % 0x40, r % 0x20 * 2)
  }

  function EncodeDate(d: Date): (r: u16)
    requires ValidDate(d)
  {
    (d.year - 1980) * 0x200 + d.month * 0x20 + d.day
  }

  function DecodeDate(r: u16): Date
  {
    Date(1980 + r / 0x200, r / 0x20 % 0x10, r % 0x20)
  }

  /** Every valid time of day survives the 16-bit packing (seconds have a resolution of
      two, which is why they must be even). */
  lemma TimeRoundTrip(t: TimeOfDay)
    requires ValidTime(t)
    ensures DecodeTime(EncodeTime(t)) == t
  {
    var r := EncodeTime(t);
    var low := t.minute * 0x20 + t.second / 2;
    assert r == t.hour * 0x800 + low && low < 0x800;
    assert r / 0x800 == t.hour;
    assert r / 0x20 == t.hour * 0x40 + t.minute;
    assert r % 0x20 == t.second / 2;
  }

  /** Every valid date survives the 16-bit packing. */
  lemma DateRoundTrip(d: Date)
    requires ValidDate(d)
    ensures DecodeDate(EncodeDate(d)) == d
  {
    var r := EncodeDate(d);
    var low := d.month * 0x20 + d.day;
    assert r == (d.year - 1980) * 0x200 + low && low < 0x200;
    assert r / 0x200 == d.year - 1980;
    assert r / 0x20 == (d.year - 1980) * 0x10 + d.month;
    assert r % 0x20 == d.day;
  }

  /** getDosTime: the stamp of 12:00:00. */
  function GetDosTime(): (r: u16)
    ensures r == 0x6000
  {
    12 * 0x800 + 0 * 0x20 + 0 / 2
  }

  /** getDosDate: the stamp of 28 September 2024. */
  function GetDosDate(): (r: u16)
    ensures r == 0x593C
  {
    (2024 - 1980) * 0x200 + 9 * 0x20 + 28
  }

  /** The fixed stamp the writers store is 12:00:00 on 28 September 2024, and it decodes
      to that moment. Both halves are below 2^15, so the `short` that returns them keeps
      them intact. */
  lemma FixedStamp()
    ensures GetDosTime() < 0x8000 && GetDosDate() < 0x8000
    ensures GetDosTime() == EncodeTime(TimeOfDay(12, 0, 0))
    ensures DecodeTime(GetDosTime()) == TimeOfDay(12, 0, 0)
    ensures GetDosDate() == EncodeDate(Date(2024, 9, 28))
    ensures DecodeDate(GetDosDate()) == Date(2024, 9, 28)
  {
    TimeRoundTrip(TimeOfDay(12, 0, 0));
    DateRoundTrip(Date(2024, 9, 28));
  }
}
