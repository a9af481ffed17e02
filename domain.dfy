/**
 * The domain values the walker produces and the builders it drives.
 * The builders' own validation is not part of this model: they are plain
 * accumulators, and a field never set stays `None`.
 */
module Domain {
  import opened Wrappers

  /** What the date parser yields for a date token. */
  datatype CalendarDate = CalendarDate(year: int, month: int, day: int)

  /** The hour and minute text of a time token, as handed to `EntryBuilder::time`. */
  datatype Time = Time(hour: string, minute: string)

  datatype Entry = Entry(time: Option<Time>, comment: Option<string>, category: Option<string>, tags: seq<string>)

  datatype Date = Date(date: Option<CalendarDate>, entries: seq<Entry>)

  datatype Timesheet = Timesheet(dates: seq<Date>)

  /** Why a walk was aborted. */
  datatype Defect =
    | MissingName(message: string)  // a DefectException raised by the walker
    | MalformedDate(text: string)   // the failure a date parser is meant to return for a bad date token
    | MalformedTime(text: string)   // a time token without a ':'

  class TimesheetBuilder {
    var dates: seq<Date>

    constructor ()
      ensures dates == []
    {
      dates := [];
    }

    method AddDate(date: Date)
      modifies this
      ensures dates == old(dates) + [date]
    {
      dates := dates + [date];
    }

    function Build(): Timesheet
      reads this
    {
      Timesheet(dates)
    }
  }

  class DateBuilder {
    var date: Option<CalendarDate>
    var entries: seq<Entry>

    constructor ()
      ensures date == None && entries == []
    {
      date, entries := None, [];
    }

    method SetDate(d: CalendarDate)
      modifies this
      ensures date == Some(d) && entries == old(entries)
    {
      date := Some(d);
    }

    method AddEntry(e: Entry)
      modifies this
      ensures entries == old(entries) + [e] && date == old(date)
    {
      entries := entries + [e];
    }

    function Build(): Date
      reads this
    {
      Date(date, entries)
    }
  }

  class EntryBuilder {
    var time: Option<Time>
    var comment: Option<string>
    var category: Option<string>
    var tags: seq<string>

    constructor ()
      ensures time == None && comment == None && category == None && tags == []
    {
      time, comment, category, tags := None, None, None, [];
    }

    method SetTime(hour: string, minute: string)
      modifies this
      ensures time == Some(Time(hour, minute))
      ensures comment == old(comment) && category == old(category) && tags == old(tags)
    {
      time := Some(Time(hour, minute));
    }

    method SetComment(text: string)
      modifies this
      ensures comment == Some(text)
      ensures time == old(time) && category == old(category) && tags == old(tags)
    {
      comment := Some(text);
    }

    method SetCategory(name: string)
      modifies this
      ensures category == Some(name)
      ensures time == old(time) && comment == old(comment) && tags == old(tags)
    {
      category := Some(name);
    }

    method AddTag(tag: string)
      modifies this
      ensures tags == old(tags) + [tag]
      ensures time == old(time) && comment == old(comment) && category == old(category)
    {
      tags := tags + [tag];
    }

    function Build(): Entry
      reads this
    {
      Entry(time, comment, category, tags)
    }
  }
}
