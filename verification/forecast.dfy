/**
 The day selection of the three-day forecast: the provider's time-ordered
 entries are keyed by calendar date, later entries of a date already shown
 are skipped, and collection stops at the third date.
 */
module Forecast {
  import Emoji
  import Text

  /** How many distinct dates a forecast shows. */
  const DayLimit: nat := 3

  /** One provider entry: its `dt_txt` stamp ("YYYY-MM-DD hh:mm:ss"), the
      first weather description and the temperature, carried opaquely. */
  datatype Entry<T> = Entry(dtTxt: string, description: string, temp: T)

  /** One rendered forecast line. */
  datatype Day<T> = Day(date: string, symbol: string, description: string, temp: T)

  /** `dt_txt.split(" ")[0]`: the stamp up to its first space. */
  function DateKey(dtTxt: string): (date: string)
    ensures date <= dtTxt
    ensures ' ' !in date
    ensures |date| < |dtTxt| ==> dtTxt[|date|] == ' '
  {
    if dtTxt == [] || dtTxt[0] == ' ' then [] else [dtTxt[0]] + DateKey(dtTxt[1..])
  }

  /** The three properties of `DateKey` pin it down. */
  lemma DateKeyUnique(dtTxt: string, date: string)
    requires date <= dtTxt && ' ' !in date
    requires |date| < |dtTxt| ==> dtTxt[|date|] == ' '
    ensures DateKey(dtTxt) == date
  {
  }

  /** Joining a date and a time with a space and keying the result gives
      the date back. */
  lemma DateKeyOfStamp(date: string, time: string)
    requires ' ' !in date
    ensures DateKey(date + " " + time) == date
  {
    DateKeyUnique(date + " " + time, date);
  }

  /** The line an entry produces: its date, the symbol of its
      description, the description and the temperature. */
  function ToDay<T>(e: Entry<T>): (d: Day<T>)
    ensures d.date <= e.dtTxt && ' ' !in d.date
    ensures |d.date| < |e.dtTxt| ==> e.dtTxt[|d.date|] == ' '
    ensures d.description == e.description && d.temp == e.temp
  {
    Day(DateKey(e.dtTxt), Emoji.Classify(e.description), e.description, e.temp)
  }

  /** The symbol of a line is the thermometer exactly when no keyword
      occurs in the lower-cased description, and otherwise the symbol of
      the first keyword that occurs. */
  lemma ToDaySymbol<T>(e: Entry<T>)
    ensures ToDay(e).symbol == Emoji.Default ==>
              forall j :: 0 <= j < |Emoji.Table| ==> !Emoji.Matches(Text.Lower(e.description), j)
    ensures (forall j :: 0 <= j < |Emoji.Table| ==> !Emoji.Matches(Text.Lower(e.description), j)) ==>
              ToDay(e).symbol == Emoji.Default
    ensures forall i :: 0 <= i < |Emoji.Table| ==>
              (Emoji.Matches(Text.Lower(e.description), i) &&
               (forall j :: 0 <= j < i ==> !Emoji.Matches(Text.Lower(e.description), j))) ==>
              ToDay(e).symbol == Emoji.Table[i].1
  {
  }

  /** The dates already shown: `days_collected`. */
  function Collected<T>(days: seq<Day<T>>): set<string>
  {
    set i | 0 <= i < |days| :: days[i].date
  }

  /** Every date occurring in the entries. */
  function EntryDates<T>(entries: seq<Entry<T>>): set<string>
  {
    set i | 0 <= i < |entries| :: DateKey(entries[i].dtTxt)
  }

  lemma CollectedSnoc<T>(days: seq<Day<T>>, d: Day<T>)
    ensures Collected(days + [d]) == Collected(days) + {d.date}
  {
    var a := days + [d];
    assert forall i :: 0 <= i < |days| ==> a[i] == days[i];
    assert a[|days|] == d;
  }

  lemma EntryDatesSnoc<T>(entries: seq<Entry<T>>, e: Entry<T>)
    ensures EntryDates(entries + [e]) == EntryDates(entries) + {DateKey(e.dtTxt)}
  {
    var a := entries + [e];
    assert forall i :: 0 <= i < |entries| ==> a[i] == entries[i];
    assert a[|entries|] == e;
  }

  /** One line per distinct date, taken from the first entry of that date,
      in the order the dates first occur. */
  function FirstDays<T>(entries: seq<Entry<T>>): (days: seq<Day<T>>)
    ensures |days| <= |entries|
    ensures forall p, q :: 0 <= p < q < |days| ==> days[p].date != days[q].date
    ensures Collected(days) == EntryDates(entries)
    decreases |entries|
  {
    if entries == [] then []
    else
      var front := entries[..|entries| - 1];
      var last := entries[|entries| - 1];
      assert entries == front + [last];
      EntryDatesSnoc(front, last);
      var prev := FirstDays(front);
      var d := ToDay(last);
      if d.date in Collected(prev) then prev
      else
        CollectedSnoc(prev, d);
        prev + [d]
  }

  /** How one more entry extends the lines. */
  lemma FirstDaysSnoc<T>(entries: seq<Entry<T>>, e: Entry<T>)
    ensures DateKey(e.dtTxt) in EntryDates(entries) ==>
              FirstDays(entries + [e]) == FirstDays(entries)
    ensures DateKey(e.dtTxt) !in EntryDates(entries) ==>
              FirstDays(entries + [e]) == FirstDays(entries) + [ToDay(e)]
  {
    assert (entries + [e])[..|entries|] == entries;
  }

  /** The lines the forecast shows: the first `DayLimit` of them. */
  function Select<T>(entries: seq<Entry<T>>): (days: seq<Day<T>>)
    ensures |days| <= DayLimit
    ensures forall p, q :: 0 <= p < q < |days| ==> days[p].date != days[q].date
  {
    var days := FirstDays(entries);
    if |days| <= DayLimit then days else days[..DayLimit]
  }

  /** Distinct dates: as many dates collected as lines. */
  lemma {:induction false} CollectedCount<T>(days: seq<Day<T>>)
    requires forall p, q :: 0 <= p < q < |days| ==> days[p].date != days[q].date
    ensures |Collected(days)| == |days|
  {
    if days != [] {
      var front := days[..|days| - 1];
      var last := days[|days| - 1];
      assert days == front + [last];
      assert Collected(days) == Collected(front) + {last.date};
      assert last.date !in Collected(front);
      CollectedCount(front);
    }
  }

  /** There is one line per distinct date of the input. */
  lemma FirstDaysCount<T>(entries: seq<Entry<T>>)
    ensures |FirstDays(entries)| == |EntryDates(entries)|
  {
    CollectedCount(FirstDays(entries));
  }

  /** `idx` names, for each line of `days`, the entry it was made from: the
      first entry carrying its date, at strictly increasing positions. */
  ghost predicate Origins<T>(entries: seq<Entry<T>>, days: seq<Day<T>>, idx: seq<nat>)
  {
    && |idx| == |days|
    && (forall p :: 0 <= p < |idx| ==> idx[p] < |entries| && days[p] == ToDay(entries[idx[p]]))
    && (forall p, k :: 0 <= p < |idx| && 0 <= k < idx[p] ==>
          DateKey(entries[k].dtTxt) != days[p].date)
    && (forall p, q :: 0 <= p < q < |idx| ==> idx[p] < idx[q])
  }

  /** Origins of the lines survive the arrival of an entry with a new date,
      whose own line comes from that entry. */
  lemma OriginsSnoc<T>(front: seq<Entry<T>>, last: Entry<T>, prev: seq<Day<T>>, pidx: seq<nat>)
    requires Origins(front, prev, pidx)
    requires DateKey(last.dtTxt) !in EntryDates(front)
    ensures Origins(front + [last], prev + [ToDay(last)], pidx + [|front|])
  {
    var entries := front + [last];
    var days := prev + [ToDay(last)];
    var idx := pidx + [|front|];
    forall p | 0 <= p < |idx|
      ensures idx[p] < |entries| && days[p] == ToDay(entries[idx[p]])
    {
      if p < |pidx| {
        assert entries[idx[p]] == front[pidx[p]];
      }
    }
    forall p, k | 0 <= p < |idx| && 0 <= k < idx[p]
      ensures DateKey(entries[k].dtTxt) != days[p].date
    {
      assert entries[k] == front[k];
      if p == |pidx| {
        assert DateKey(front[k].dtTxt) in EntryDates(front);
      }
    }
  }

  /** Origins of the lines survive the arrival of an entry with a date
      already collected. */
  lemma OriginsExtend<T>(front: seq<Entry<T>>, last: Entry<T>, days: seq<Day<T>>, idx: seq<nat>)
    requires Origins(front, days, idx)
    ensures Origins(front + [last], days, idx)
  {
    var entries := front + [last];
    assert forall k :: 0 <= k < |front| ==> entries[k] == front[k];
  }

  /** Each line comes from the first entry carrying its date, and the lines
      follow the order of those entries. */
  lemma FirstDaysOrigins<T>(entries: seq<Entry<T>>) returns (idx: seq<nat>)
    ensures |idx| == |FirstDays(entries)|
    ensures forall p :: 0 <= p < |idx| ==>
              idx[p] < |entries| && FirstDays(entries)[p] == ToDay(entries[idx[p]])
    ensures forall p, k :: 0 <= p < |idx| && 0 <= k < idx[p] ==>
              DateKey(entries[k].dtTxt) != FirstDays(entries)[p].date
    ensures forall p, q :: 0 <= p < q < |idx| ==> idx[p] < idx[q]
  {
    idx := OriginsOf(entries);
  }

  lemma {:induction false} OriginsOf<T>(entries: seq<Entry<T>>) returns (idx: seq<nat>)
    ensures Origins(entries, FirstDays(entries), idx)
    decreases |entries|
  {
    if entries == [] {
      idx := [];
    } else {
      var n := |entries| - 1;
      var front := entries[..n];
      var last := entries[n];
      assert entries == front + [last];
      FirstDaysSnoc(front, last);
      var pidx := OriginsOf(front);
      if DateKey(last.dtTxt) in EntryDates(front) {
        OriginsExtend(front, last, FirstDays(front), pidx);
        idx := pidx;
      } else {
        OriginsSnoc(front, last, FirstDays(front), pidx);
        idx := pidx + [n];
      }
    }
  }

  /** The lines of a prefix of the input are a prefix of the lines of the
      whole input. */
  lemma {:induction false} FirstDaysPrefix<T>(entries: seq<Entry<T>>, more: seq<Entry<T>>)
    ensures FirstDays(entries) <= FirstDays(entries + more)
    decreases |more|
  {
    if more != [] {
      var n := |more| - 1;
      var front := entries + more[..n];
      assert entries + more == front + [more[n]];
      FirstDaysPrefix(entries, more[..n]);
      FirstDaysSnoc(front, more[n]);
    } else {
      assert entries + more == entries;
    }
  }

  /** An entry whose date was already collected adds no line. */
  lemma RepeatedDateAddsNothing<T>(entries: seq<Entry<T>>, e: Entry<T>)
    requires DateKey(e.dtTxt) in EntryDates(entries)
    ensures FirstDays(entries + [e]) == FirstDays(entries)
    ensures Select(entries + [e]) == Select(entries)
  {
    assert (entries + [e])[..|entries|] == entries;
  }

  /** Once three dates are collected, later entries change nothing. */
  lemma SelectStable<T>(entries: seq<Entry<T>>, more: seq<Entry<T>>)
    requires |EntryDates(entries)| >= DayLimit
    ensures Select(entries + more) == Select(entries)
  {
    FirstDaysCount(entries);
    FirstDaysPrefix(entries, more);
  }

  /** At most three lines, one for each of the first three distinct dates,
      or one per distinct date when there are fewer. */
  lemma SelectCount<T>(entries: seq<Entry<T>>)
    ensures |Select(entries)| <= DayLimit
    ensures |EntryDates(entries)| >= DayLimit ==> |Select(entries)| == DayLimit
    ensures |EntryDates(entries)| < DayLimit ==> |Select(entries)| == |EntryDates(entries)|
    ensures Select(entries) <= FirstDays(entries)
  {
    FirstDaysCount(entries);
  }

  /** One more entry of the input, as the collection loop sees it. */
  lemma PrefixStep<T>(entries: seq<Entry<T>>, i: int)
    requires 0 <= i < |entries|
    ensures EntryDates(entries[..i + 1]) == EntryDates(entries[..i]) + {DateKey(entries[i].dtTxt)}
    ensures DateKey(entries[i].dtTxt) in EntryDates(entries[..i]) ==>
              FirstDays(entries[..i + 1]) == FirstDays(entries[..i])
    ensures DateKey(entries[i].dtTxt) !in EntryDates(entries[..i]) ==>
              FirstDays(entries[..i + 1]) == FirstDays(entries[..i]) + [ToDay(entries[i])]
  {
    assert entries[..i + 1] == entries[..i] + [entries[i]];
    FirstDaysSnoc(entries[..i], entries[i]);
    EntryDatesSnoc(entries[..i], entries[i]);
  }

  /** Where the loop breaks, or when the input runs out, it has collected
      exactly the lines shown. */
  lemma LoopExit<T>(entries: seq<Entry<T>>, i: int, days: seq<Day<T>>, seen: set<string>)
    requires 0 <= i <= |entries|
    requires days == FirstDays(entries[..i]) && seen == EntryDates(entries[..i])
    requires |days| <= DayLimit
    requires i == |entries| || |seen| >= DayLimit
    ensures days == Select(entries) && seen == Collected(days)
  {
    FirstDaysCount(entries[..i]);
    if i == |entries| {
      assert entries[..i] == entries;
    } else {
      SelectAtBreak(entries, i);
    }
  }

  lemma SelectAtBreak<T>(entries: seq<Entry<T>>, i: int)
    requires 0 <= i <= |entries| && |EntryDates(entries[..i])| >= DayLimit
    requires |FirstDays(entries[..i])| <= DayLimit
    ensures Select(entries) == FirstDays(entries[..i])
  {
    assert entries == entries[..i] + entries[i..];
    SelectStable(entries[..i], entries[i..]);
    FirstDaysCount(entries[..i]);
  }

  /** The collection loop of `get_forecast`: walks the entries, adds a line
      for each date not yet collected, and breaks once three dates are
      collected. */
  method CollectDays<T>(entries: seq<Entry<T>>) returns (days: seq<Day<T>>, seen: set<string>)
    ensures days == Select(entries)
    ensures seen == Collected(days)
  {
    days := [];
    seen := {};
    var i := 0;
    while i < |entries|
      invariant 0 <= i <= |entries|
      invariant days == FirstDays(entries[..i])
      invariant seen == EntryDates(entries[..i])
      invariant |days| < DayLimit
    {
      var entry := entries[i];
      var date := DateKey(entry.dtTxt);
      PrefixStep(entries, i);
      if date !in seen {
        days := days + [Day(date, Emoji.Classify(entry.description), entry.description, entry.temp)];
        seen := seen + {date};
      }
      i := i + 1;
      FirstDaysCount(entries[..i]);
      if |seen| >= DayLimit {
        LoopExit(entries, i, days, seen);
        break;
      }
    }
    if i == |entries| {
      LoopExit(entries, i, days, seen);
    }
  }
}
