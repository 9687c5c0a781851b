/** The bookmarks window: the search, the date labels, and the list rebuilt from the store. */
module BookmarkList {
  import opened Wrappers
  import opened Bookmarks
  import Text

  // ---- the search

  /** needle reads the same as haystack from i on, once both are lower-cased. */
  predicate SameFrom(haystack: string, needle: string, i: nat, lower: char -> char) {
    i + |needle| <= |haystack| && forall j :: 0 <= j < |needle| ==> lower(haystack[i + j]) == lower(needle[j])
  }

  predicate Contains(haystack: string, needle: string, lower: char -> char) {
    exists i: nat :: i <= |haystack| && SameFrom(haystack, needle, i, lower)
  }

  method ContainsNoCase(haystack: string, needle: string, lower: char -> char) returns (found: bool)
    ensures found <==> Contains(haystack, needle, lower)
  {
    if needle == "" {
      assert SameFrom(haystack, needle, 0, lower);
      return true;
    }
    if |needle| > |haystack| {
      return false;
    }
    var i := 0;
    while i + |needle| <= |haystack|
      invariant forall k: nat :: k < i ==> !SameFrom(haystack, needle, k, lower)
    {
      var j := 0;
      while j < |needle| && lower(haystack[i + j]) == lower(needle[j])
        invariant j <= |needle|
        invariant forall k :: 0 <= k < j ==> lower(haystack[i + k]) == lower(needle[k])
      {
        j := j + 1;
      }
      if j == |needle| {
        assert SameFrom(haystack, needle, i, lower);
        return true;
      }
      i := i + 1;
    }
    return false;
  }

  predicate Matches(b: Bookmark, query: string, lower: char -> char) {
    Contains(b.title, query, lower) || Contains(b.url, query, lower)
  }

  function Lowered(s: string, lower: char -> char): (r: string)
    ensures |r| == |s| && forall i :: 0 <= i < |s| ==> r[i] == lower(s[i])
  {
    seq(|s|, i requires 0 <= i < |s| => lower(s[i]))
  }

  lemma LoweredSame(text: string, query: string, i: nat, lower: char -> char)
    ensures SameFrom(text, query, i, lower) <==> Text.MatchAt(Lowered(text, lower), Lowered(query, lower), i)
  {
    if i + |query| <= |text| {
      var part := Lowered(text, lower)[i..i + |query|];
      assert forall j :: 0 <= j < |query| ==> part[j] == lower(text[i + j]);
      if part == Lowered(query, lower) {
        forall j | 0 <= j < |query| ensures lower(text[i + j]) == lower(query[j]) {
          assert part[j] == Lowered(query, lower)[j];
        }
      }
    }
  }

  lemma ContainsLowered(text: string, query: string, lower: char -> char)
    ensures Contains(text, query, lower) <==> Text.Occurs(Lowered(query, lower), Lowered(text, lower))
  {
    forall i: nat
      ensures SameFrom(text, query, i, lower) <==> Text.MatchAt(Lowered(text, lower), Lowered(query, lower), i)
    {
      LoweredSame(text, query, i, lower);
    }
    hide SameFrom, Text.MatchAt;
  }

  /** An entry is shown when its title or its URL, lower-cased, has the lower-cased query in it. */
  lemma MatchesExactly(b: Bookmark, query: string, lower: char -> char)
    ensures Matches(b, query, lower) <==>
            || Text.Occurs(Lowered(query, lower), Lowered(b.title, lower))
            || Text.Occurs(Lowered(query, lower), Lowered(b.url, lower))
  {
    ContainsLowered(b.title, query, lower);
    ContainsLowered(b.url, query, lower);
    hide Contains, Text.Occurs;
  }

  // ---- the date labels

  datatype Day = Day(year: int, yday: int)

  /** localtime_r, and strftime with "%Y-%m-%d". */
  datatype Calendar = Calendar(day: int -> Option<Day>, format: Day -> string)

  const SECONDS_IN_A_DAY := 24 * 60 * 60

  function DateGroupLabel(cal: Calendar, now: int, when: int): string {
    var entry, today, yesterday := cal.day(when), cal.day(now), cal.day(now - SECONDS_IN_A_DAY);
    if entry.None? || today.None? || yesterday.None? then "Bookmarks"
    else if entry == today then "Today"
    else if entry == yesterday then "Yesterday"
    else cal.format(entry.value)
  }

  predicate Before(a: Day, b: Day) {
    a.year < b.year || (a.year == b.year && a.yday <= b.yday)
  }

  /**
   Every time has a day, days follow the times, and dates are written apart from each other and from the two words.
   */
  ghost predicate Sound(cal: Calendar) {
    && (forall t: int :: cal.day(t).Some?)
    && (forall s: int, t: int :: s <= t ==> Before(cal.day(s).value, cal.day(t).value))
    && (forall d: Day :: cal.format(d) != "" && cal.format(d) != "Today" && cal.format(d) != "Yesterday")
    && (forall d: Day, e: Day :: cal.format(d) == cal.format(e) ==> d == e)
  }

  lemma LabelIsDay(cal: Calendar, now: int, s: int, t: int)
    requires Sound(cal)
    ensures DateGroupLabel(cal, now, s) == DateGroupLabel(cal, now, t) <==> cal.day(s) == cal.day(t)
    ensures DateGroupLabel(cal, now, s) != ""
  {
    assert cal.day(s).Some? && cal.day(t).Some?;
  }

  /** "Today" is exactly the day of the clock, "Yesterday" the day of 24 hours before it unless that is the same day. */
  lemma LabelWords(cal: Calendar, now: int, t: int)
    requires Sound(cal)
    ensures DateGroupLabel(cal, now, t) == "Today" <==> cal.day(t) == cal.day(now)
    ensures DateGroupLabel(cal, now, t) == "Yesterday" <==>
            cal.day(t) == cal.day(now - SECONDS_IN_A_DAY) && cal.day(t) != cal.day(now)
  {
    assert "Today"[0] == 'T' && "Yesterday"[0] == 'Y' && "Bookmarks"[0] == 'B';
    assert cal.day(t).Some? && cal.day(now).Some? && cal.day(now - SECONDS_IN_A_DAY).Some?;
  }

  /** Any other day is headed by its own date, and a time the calendar cannot place by the word for all bookmarks. */
  lemma LabelExactly(cal: Calendar, now: int, t: int)
    ensures var day, heading := cal.day(t), DateGroupLabel(cal, now, t);
            && (day.None? || cal.day(now).None? || cal.day(now - 86400).None? ==> heading == "Bookmarks")
            && (day.Some? && cal.day(now).Some? && cal.day(now - 86400).Some? ==>
                  && (day == cal.day(now) ==> heading == "Today")
                  && (day != cal.day(now) && day == cal.day(now - 86400) ==> heading == "Yesterday")
                  && (day != cal.day(now) && day != cal.day(now - 86400) ==> heading == cal.format(day.value)))
  {
  }

  /** Days are unbroken stretches of time. */
  lemma DayUnbroken(cal: Calendar, now: int, s: int, t: int, u: int)
    requires Sound(cal) && s >= t >= u
    requires DateGroupLabel(cal, now, s) == DateGroupLabel(cal, now, u)
    ensures DateGroupLabel(cal, now, t) == DateGroupLabel(cal, now, s)
  {
    LabelIsDay(cal, now, s, u);
    LabelIsDay(cal, now, s, t);
    assert Before(cal.day(u).value, cal.day(t).value) && Before(cal.day(t).value, cal.day(s).value);
    assert cal.day(t).Some?;
  }

  // ---- the rebuilt list

  datatype ListRow = Group(heading: string) | Item(text: string, url: string)

  function ItemOf(b: Bookmark): ListRow {
    Item(if b.title == "" then b.url else b.title + "  -  " + b.url, b.url)
  }

  /** A row opens the URL of its entry, and reads as its title and its URL, or as the URL alone. */
  lemma ItemExactly(b: Bookmark)
    ensures ItemOf(b).Item? && ItemOf(b).url == b.url
    ensures b.title == "" ==> ItemOf(b).text == b.url
    ensures b.title != "" ==> ItemOf(b).text == b.title + "  -  " + b.url
  {
  }

  function Shown(entries: seq<Bookmark>, query: string, lower: char -> char): (shown: seq<Bookmark>)
    ensures forall b :: b in shown <==> b in entries && Matches(b, query, lower)
  {
    if entries == [] then []
    else
      var last := entries[|entries| - 1];
      assert entries == entries[..|entries| - 1] + [last];
      Shown(entries[..|entries| - 1], query, lower) + if Matches(last, query, lower) then [last] else []
  }

  /** The label the list stands under after these entries. */
  function OpenGroup(shown: seq<Bookmark>, cal: Calendar, now: int): string {
    if shown == [] then "" else DateGroupLabel(cal, now, shown[|shown| - 1].when)
  }

  /** The rows for entries that all match. */
  function Rows(shown: seq<Bookmark>, cal: Calendar, now: int): seq<ListRow> {
    if shown == [] then []
    else
      var before, last := shown[..|shown| - 1], shown[|shown| - 1];
      var heading := DateGroupLabel(cal, now, last.when);
      Rows(before, cal, now)
      + (if heading != OpenGroup(before, cal, now) then [Group(heading)] else [])
      + [ItemOf(last)]
  }

  class BookmarksWindow {
    var list: seq<ListRow>

    /** `entries` is the store's list as std::sort left it. */
    method Rebuild(entries: seq<Bookmark>, query: string, lower: char -> char, cal: Calendar, now: int)
      modifies this
      ensures list == Rows(Shown(entries, query, lower), cal, now)
    {
      hide Rows, Shown, DateGroupLabel, ItemOf, OpenGroup, Contains;
      EmptyList(cal, now, query, lower);
      list := [];
      var openGroup := "";
      for i := 0 to |entries|
        invariant list == Rows(Shown(entries[..i], query, lower), cal, now)
        invariant openGroup == OpenGroup(Shown(entries[..i], query, lower), cal, now)
      {
        var entry := entries[i];
        ghost var shown := Shown(entries[..i], query, lower);
        ShownNext(entries, i, query, lower);
        RowsAppend(shown, entry, cal, now);
        var inTitle := ContainsNoCase(entry.title, query, lower);
        var inUrl := ContainsNoCase(entry.url, query, lower);
        if inTitle || inUrl {
          var group := DateGroupLabel(cal, now, entry.when);
          if group != openGroup {
            list := list + [Group(group)];
            openGroup := group;
          }
          list := list + [ItemOf(entry)];
        }
      }
      assert entries[..|entries|] == entries;
    }
  }

  lemma EmptyList(cal: Calendar, now: int, query: string, lower: char -> char)
    ensures Shown([], query, lower) == [] && Rows([], cal, now) == [] && OpenGroup([], cal, now) == ""
  {
  }

  lemma ShownNext(entries: seq<Bookmark>, i: nat, query: string, lower: char -> char)
    requires i < |entries|
    ensures Shown(entries[..i + 1], query, lower) ==
            if Matches(entries[i], query, lower) then Shown(entries[..i], query, lower) + [entries[i]]
            else Shown(entries[..i], query, lower)
  {
    assert entries[..i + 1][..i] == entries[..i];
    assert Shown(entries[..i], query, lower) + [] == Shown(entries[..i], query, lower);
  }

  lemma RowsAppend(shown: seq<Bookmark>, last: Bookmark, cal: Calendar, now: int)
    ensures var heading, rows := DateGroupLabel(cal, now, last.when), Rows(shown, cal, now);
            Rows(shown + [last], cal, now) ==
            (if heading != OpenGroup(shown, cal, now) then rows + [Group(heading)] else rows) + [ItemOf(last)]
    ensures OpenGroup(shown + [last], cal, now) == DateGroupLabel(cal, now, last.when)
  {
    assert (shown + [last])[..|shown|] == shown;
    assert Rows(shown, cal, now) + [] == Rows(shown, cal, now);
  }

  // ---- reading the list

  /** Each item of a list with the label it stands under. */
  function Read(rows: seq<ListRow>): seq<(string, ListRow)> {
    if rows == [] then []
    else
      var before, last := rows[..|rows| - 1], rows[|rows| - 1];
      Read(before) + if last.Item? then [(Under(rows), last)] else []
  }

  /** The last label of a list. */
  function Under(rows: seq<ListRow>): string {
    if rows == [] then ""
    else if rows[|rows| - 1].Group? then rows[|rows| - 1].heading
    else Under(rows[..|rows| - 1])
  }

  function Labels(rows: seq<ListRow>): seq<string> {
    if rows == [] then []
    else
      var last := rows[|rows| - 1];
      Labels(rows[..|rows| - 1]) + if last.Group? then [last.heading] else []
  }

  function Dated(shown: seq<Bookmark>, cal: Calendar, now: int): seq<(string, ListRow)> {
    seq(|shown|, i requires 0 <= i < |shown| => (DateGroupLabel(cal, now, shown[i].when), ItemOf(shown[i])))
  }

  lemma ReadAppend(rows: seq<ListRow>, row: ListRow)
    ensures Read(rows + [row]) == Read(rows) + if row.Item? then [(Under(rows), row)] else []
    ensures Under(rows + [row]) == if row.Group? then row.heading else Under(rows)
    ensures Labels(rows + [row]) == Labels(rows) + if row.Group? then [row.heading] else []
  {
    assert (rows + [row])[..|rows|] == rows;
  }

  /** The list shows exactly the given entries in their order, each under the label of its own day. */
  lemma {:induction false} RowsRead(shown: seq<Bookmark>, cal: Calendar, now: int)
    requires Sound(cal)
    ensures Read(Rows(shown, cal, now)) == Dated(shown, cal, now)
    ensures Under(Rows(shown, cal, now)) == OpenGroup(shown, cal, now)
  {
    if shown != [] {
      var before, last := shown[..|shown| - 1], shown[|shown| - 1];
      assert shown == before + [last];
      RowsRead(before, cal, now);
      RowsReadStep(before, last, cal, now);
    }
  }

  lemma RowsReadStep(before: seq<Bookmark>, last: Bookmark, cal: Calendar, now: int)
    requires Read(Rows(before, cal, now)) == Dated(before, cal, now)
    requires Under(Rows(before, cal, now)) == OpenGroup(before, cal, now)
    ensures var shown := before + [last];
            && Read(Rows(shown, cal, now)) == Dated(shown, cal, now)
            && Under(Rows(shown, cal, now)) == DateGroupLabel(cal, now, last.when)
  {
    var own, rows := DateGroupLabel(cal, now, last.when), Rows(before, cal, now);
    assert Dated(before + [last], cal, now) == Dated(before, cal, now) + [(own, ItemOf(last))];
    assert ItemOf(last).Item?;
    hide *;
    RowsAppend(before, last, cal, now);
    ReadAppend(rows, Group(own));
    ReadAppend(rows, ItemOf(last));
    ReadAppend(rows + [Group(own)], ItemOf(last));
    assert Read(rows) + [] == Read(rows);
  }

  ghost predicate NewestFirst(entries: seq<Bookmark>) {
    forall i, j :: 0 <= i < j < |entries| ==> entries[i].when >= entries[j].when
  }

  predicate Distinct(labels: seq<string>) {
    forall i, j :: 0 <= i < j < |labels| ==> labels[i] != labels[j]
  }

  lemma LabelsAppend(before: seq<Bookmark>, last: Bookmark, cal: Calendar, now: int)
    ensures var own := DateGroupLabel(cal, now, last.when);
            Labels(Rows(before + [last], cal, now)) ==
            Labels(Rows(before, cal, now)) + if own != OpenGroup(before, cal, now) then [own] else []
  {
    hide *;
    RowsAppend(before, last, cal, now);
    var own, rows := DateGroupLabel(cal, now, last.when), Rows(before, cal, now);
    ReadAppend(rows, Group(own));
    ReadAppend(rows, ItemOf(last));
    ReadAppend(rows + [Group(own)], ItemOf(last));
    ItemIsItem(last);
    assert Labels(rows) + [own] + [] == Labels(rows) + [own];
  }

  lemma ItemIsItem(b: Bookmark)
    ensures ItemOf(b).Item?
  {
  }

  lemma {:induction false} RowLabels(shown: seq<Bookmark>, cal: Calendar, now: int, heading: string)
    requires forall i :: 0 <= i < |shown| ==> DateGroupLabel(cal, now, shown[i].when) != heading
    ensures heading !in Labels(Rows(shown, cal, now))
  {
    hide DateGroupLabel, OpenGroup, ItemOf;
    if shown != [] {
      var before, last := shown[..|shown| - 1], shown[|shown| - 1];
      assert shown == before + [last];
      RowLabels(before, cal, now, heading);
      LabelsAppend(before, last, cal, now);
    }
  }

  /** Newest first, no date label appears twice. */
  lemma {:induction false} LabelsAppearOnce(shown: seq<Bookmark>, cal: Calendar, now: int)
    requires Sound(cal) && NewestFirst(shown)
    ensures Distinct(Labels(Rows(shown, cal, now)))
  {
    if shown == [] {
      assert Labels(Rows(shown, cal, now)) == [];
    } else {
      var before, last := shown[..|shown| - 1], shown[|shown| - 1];
      assert shown == before + [last];
      assert NewestFirst(before);
      LabelsAppearOnce(before, cal, now);
      NewLabel(before, last, cal, now);
      hide *;
      LabelsAppend(before, last, cal, now);
      var own, headings := DateGroupLabel(cal, now, last.when), Labels(Rows(before, cal, now));
      if own != OpenGroup(before, cal, now) { DistinctAppend(headings, own); }
      assert headings + [] == headings;
    }
  }

  lemma DistinctAppend(headings: seq<string>, heading: string)
    requires Distinct(headings) && heading !in headings
    ensures Distinct(headings + [heading])
  {
  }

  lemma NewLabel(before: seq<Bookmark>, last: Bookmark, cal: Calendar, now: int)
    requires Sound(cal) && NewestFirst(before + [last])
    ensures var own := DateGroupLabel(cal, now, last.when);
            own != OpenGroup(before, cal, now) ==> own !in Labels(Rows(before, cal, now))
  {
    var own, all := DateGroupLabel(cal, now, last.when), before + [last];
    if own != OpenGroup(before, cal, now) {
      forall i | 0 <= i < |before| ensures DateGroupLabel(cal, now, before[i].when) != own {
        assert all[i].when >= all[|before| - 1].when >= all[|before|].when;
        if DateGroupLabel(cal, now, before[i].when) == own {
          DayUnbroken(cal, now, before[i].when, before[|before| - 1].when, last.when);
        }
      }
      RowLabels(before, cal, now, own);
    }
  }

  /** Every label is followed by an entry. */
  ghost predicate NoEmptyGroup(rows: seq<ListRow>) {
    forall k :: 0 <= k < |rows| && rows[k].Group? ==> k + 1 < |rows| && rows[k + 1].Item?
  }

  lemma {:induction false} GroupsHaveEntries(shown: seq<Bookmark>, cal: Calendar, now: int)
    ensures NoEmptyGroup(Rows(shown, cal, now))
  {
    if shown != [] {
      var before, last := shown[..|shown| - 1], shown[|shown| - 1];
      assert shown == before + [last];
      GroupsHaveEntries(before, cal, now);
      RowsAppend(before, last, cal, now);
    }
  }

  lemma {:induction false} ShownNewestFirst(entries: seq<Bookmark>, query: string, lower: char -> char)
    requires NewestFirst(entries)
    ensures NewestFirst(Shown(entries, query, lower))
  {
    if entries != [] {
      var before := entries[..|entries| - 1];
      ShownNewestFirst(before, query, lower);
      forall b | b in Shown(before, query, lower) ensures b.when >= entries[|entries| - 1].when {
        var i :| 0 <= i < |before| && before[i] == b;
        assert entries[i] == b;
      }
    }
  }

  lemma {:induction false} ShownCounts(entries: seq<Bookmark>, query: string, lower: char -> char, b: Bookmark)
    ensures multiset(Shown(entries, query, lower))[b] == if Matches(b, query, lower) then multiset(entries)[b] else 0
  {
    if entries != [] {
      assert entries == entries[..|entries| - 1] + [entries[|entries| - 1]];
      ShownCounts(entries[..|entries| - 1], query, lower, b);
    }
  }

  /**
   Whatever order std::sort leaves equal times in, the list reads as exactly the stored entries that match the
   query, newest first, each under its own day; no label appears twice and none is empty.
   */
  lemma RebuiltList(stored: seq<Bookmark>, sorted: seq<Bookmark>, query: string, lower: char -> char,
                    cal: Calendar, now: int)
    requires Sound(cal) && NewestFirst(sorted) && multiset(sorted) == multiset(stored)
    ensures var shown := Shown(sorted, query, lower);
            var rows := Rows(shown, cal, now);
            && NewestFirst(shown)
            && (forall b :: multiset(shown)[b] == if Matches(b, query, lower) then multiset(stored)[b] else 0)
            && Read(rows) == Dated(shown, cal, now)
            && Distinct(Labels(rows))
            && NoEmptyGroup(rows)
  {
    var shown := Shown(sorted, query, lower);
    ShownNewestFirst(sorted, query, lower);
    forall b ensures multiset(shown)[b] == if Matches(b, query, lower) then multiset(stored)[b] else 0 {
      ShownCounts(sorted, query, lower, b);
    }
    RowsRead(shown, cal, now);
    LabelsAppearOnce(shown, cal, now);
    GroupsHaveEntries(shown, cal, now);
  }
}
