/** BookmarkStore: the bookmark list, the text file it is kept in, and adding to it. */
module Bookmarks {
  import opened Wrappers
  import opened Seqs
  import opened Decimal

  datatype Bookmark = Bookmark(when: int, url: string, title: string)

  const TIME_MIN := -0x8000_0000_0000_0000
  const TIME_MAX := 0x7fff_ffff_ffff_ffff

  predicate IsTime(v: int) { TIME_MIN <= v <= TIME_MAX }

  /** What the platform makes of a number too large for a time; nothing is said of it but that it is a time. */
  ghost predicate Clamps(clamp: int -> int) {
    forall v: int :: IsTime(clamp(v))
  }

  // ---- lines and fields

  /** The part of s before its first c, and the part after it. */
  function Before(s: string, c: char): (r: string)
    ensures c !in r && r <= s
    ensures |r| < |s| ==> s[|r|] == c
    ensures c in s <==> |r| < |s|
  {
    if s == "" || s[0] == c then "" else [s[0]] + Before(s[1..], c)
  }

  function Rest(s: string, c: char): string {
    var b := Before(s, c);
    if |b| < |s| then s[|b| + 1..] else ""
  }

  lemma {:induction false} BeforeAt(a: string, c: char, b: string)
    requires c !in a
    ensures Before(a + [c] + b, c) == a && Rest(a + [c] + b, c) == b
  {
    if a == "" {
      assert (a + [c] + b)[0] == c;
    } else {
      assert (a + [c] + b)[1..] == a[1..] + [c] + b;
      BeforeAt(a[1..], c, b);
    }
  }

  /** A line is kept if it has two tabs and something between them; later tabs belong to the title. */
  function ParseLine(line: string, clamp: int -> int): Option<Bookmark> {
    var stamp, fields := Before(line, '\t'), Rest(line, '\t');
    if '\t' !in line || '\t' !in fields then None
    else
      var v := ReadInt(stamp);
      var b := Bookmark(if IsTime(v) then v else clamp(v), Before(fields, '\t'), Rest(fields, '\t'));
      if b.url == "" then None else Some(b)
  }

  function Kept(line: string, clamp: int -> int): seq<Bookmark> {
    match ParseLine(line, clamp)
    case Some(b) => [b]
    case None => []
  }

  /** The list a text reads as. */
  function Parse(text: string, clamp: int -> int): seq<Bookmark>
    decreases |text|
  {
    if text == "" then []
    else
      var line := Before(text, '\n');
      Kept(line, clamp) + Parse(Rest(text, '\n'), clamp)
  }

  function PrintLine(b: Bookmark): string {
    PrintInt(b.when) + ['\t'] + b.url + ['\t'] + b.title + ['\n']
  }

  function Print(items: seq<Bookmark>): string {
    if items == [] then "" else Print(items[..|items| - 1]) + PrintLine(items[|items| - 1])
  }

  /** What a line of the file can hold. */
  predicate Storable(b: Bookmark) {
    && IsTime(b.when)
    && b.url != "" && '\t' !in b.url && '\n' !in b.url
    && '\n' !in b.title
  }

  predicate AllStorable(items: seq<Bookmark>) {
    forall b :: b in items ==> Storable(b)
  }

  lemma PrintIntPlain(v: int)
    ensures '\t' !in PrintInt(v) && '\n' !in PrintInt(v)
  {
    var s := PrintInt(v);
    forall i | 0 <= i < |s| ensures s[i] != '\t' && s[i] != '\n' {
      if v < 0 && i > 0 { assert s[i] == PrintNat(-v)[i - 1]; }
    }
  }

  /** Time, URL and title are told apart by the first two tabs alone; a title keeps its own. */
  lemma LineFields(stamp: string, url: string, title: string, clamp: int -> int)
    requires '\t' !in stamp && '\t' !in url
    ensures ParseLine(stamp + ['\t'] + (url + ['\t'] + title), clamp) ==
            if url == "" then None
            else Some(Bookmark(if IsTime(ReadInt(stamp)) then ReadInt(stamp) else clamp(ReadInt(stamp)), url, title))
  {
    var fields := url + ['\t'] + title;
    var line := stamp + ['\t'] + fields;
    BeforeAt(stamp, '\t', fields);
    BeforeAt(url, '\t', title);
    assert line[|stamp|] == '\t' && fields[|url|] == '\t';
  }

  lemma ParsePrintedLine(b: Bookmark, clamp: int -> int)
    requires Storable(b)
    ensures var line := PrintInt(b.when) + ['\t'] + b.url + ['\t'] + b.title;
            PrintLine(b) == line + ['\n'] && '\n' !in line && ParseLine(line, clamp) == Some(b)
  {
    var stamp, fields := PrintInt(b.when), b.url + ['\t'] + b.title;
    var line := stamp + ['\t'] + b.url + ['\t'] + b.title;
    PrintIntPlain(b.when);
    assert line == stamp + ['\t'] + fields;
    LineFields(stamp, b.url, b.title, clamp);
    ReadPrinted(b.when);
  }

  lemma ParseFirstLine(line: string, text: string, clamp: int -> int)
    requires '\n' !in line
    ensures Parse(line + ['\n'] + text, clamp) ==
            Kept(line, clamp) + Parse(text, clamp)
  {
    BeforeAt(line, '\n', text);
  }

  lemma {:induction false} PrintFirst(items: seq<Bookmark>)
    requires items != []
    ensures Print(items) == PrintLine(items[0]) + Print(items[1..])
  {
    hide PrintLine;
    var n := |items| - 1;
    if n == 0 {
      assert items[..n] == [];
    } else {
      var middle, last := items[1..][..n - 1], PrintLine(items[n]);
      PrintFirst(items[..n]);
      assert items[..n][1..] == middle;
      assert items[1..][n - 1] == items[n];
      assert Print(items[1..]) == Print(middle) + last;
      assert PrintLine(items[0]) + Print(middle) + last == PrintLine(items[0]) + (Print(middle) + last);
    }
  }

  /** Loading what was saved gives the same list back. */
  lemma {:induction false} ParsePrinted(items: seq<Bookmark>, clamp: int -> int)
    requires AllStorable(items)
    ensures Parse(Print(items), clamp) == items
  {
    if items != [] {
      var b := items[0];
      assert b in items;
      ParsePrinted(items[1..], clamp);
      PrintFirst(items);
      ParsePrintedLine(b, clamp);
      var line := PrintInt(b.when) + ['\t'] + b.url + ['\t'] + b.title;
      assert PrintLine(b) + Print(items[1..]) == line + ['\n'] + Print(items[1..]);
      ParseFirstLine(line, Print(items[1..]), clamp);
    }
  }

  /** A line with fewer than two tabs is not a bookmark. */
  lemma FewTabs(stamp: string, url: string, clamp: int -> int)
    requires '\t' !in stamp && '\t' !in url
    ensures ParseLine(stamp, clamp) == None && ParseLine(stamp + ['\t'] + url, clamp) == None
  {
    BeforeAt(stamp, '\t', url);
  }

  /** A text is read line by line, the last one with or without a newline behind it. */
  lemma ParseLines(line: string, text: string, clamp: int -> int)
    requires '\n' !in line
    ensures Parse(line, clamp) == Kept(line, clamp)
    ensures Parse(line + ['\n'] + text, clamp) == Kept(line, clamp) + Parse(text, clamp)
    ensures Kept(line, clamp) == match ParseLine(line, clamp) case Some(b) => [b] case None => []
  {
    ParseFirstLine(line, text, clamp);
    if line != "" {
      WholeLine(line, '\n');
      ParseUnfold(line, clamp);
      ParseEnd(clamp);
    }
    hide ParseLine;
  }

  lemma WholeLine(s: string, c: char)
    requires c !in s
    ensures Before(s, c) == s && Rest(s, c) == ""
  {
    assert |Before(s, c)| == |s|;
  }

  /** The file has a line for every bookmark: its time, its URL and its title between tabs. */
  lemma SavedText(items: seq<Bookmark>, b: Bookmark)
    ensures Print([]) == ""
    ensures Print(items + [b]) == Print(items) + (PrintInt(b.when) + "\t" + b.url + "\t" + b.title + "\n")
  {
    assert (items + [b])[..|items|] == items;
  }

  lemma LineStorable(line: string, clamp: int -> int)
    requires '\n' !in line && Clamps(clamp)
    ensures ParseLine(line, clamp).Some? ==> Storable(ParseLine(line, clamp).value)
  {
    RestKeeps(line, '\t', '\n');
    RestKeeps(Rest(line, '\t'), '\t', '\n');
  }

  lemma RestKeeps(s: string, c: char, d: char)
    requires d !in s
    ensures d !in Before(s, c) && d !in Rest(s, c)
  {
    var b := Before(s, c);
    assert forall i :: 0 <= i < |b| ==> b[i] == s[i];
  }

  lemma {:induction false} ParsedStorable(text: string, clamp: int -> int)
    requires Clamps(clamp)
    ensures AllStorable(Parse(text, clamp))
    decreases |text|
  {
    if text != "" {
      LineStorable(Before(text, '\n'), clamp);
      ParsedStorable(Rest(text, '\n'), clamp);
    }
  }

  /** Whatever text the file holds, saving what was read from it and reading that changes nothing more. */
  lemma ParsePrintParse(text: string, clamp: int -> int)
    requires Clamps(clamp)
    ensures Parse(Print(Parse(text, clamp)), clamp) == Parse(text, clamp)
  {
    ParsedStorable(text, clamp);
    ParsePrinted(Parse(text, clamp), clamp);
  }

  /** "%lld" and a tab always fit the 32-byte header buffer with its terminator. */
  lemma HeaderFits(v: int)
    requires IsTime(v)
    ensures |PrintInt(v)| + 2 <= 32
  {
    assert Power10(4) == 10_000 by { assert Power10(2) == 100; }
    assert Power10(8) == 100_000_000 by { assert Power10(6) == 1_000_000; }
    assert Power10(12) == 1_000_000_000_000 by { assert Power10(10) == 10_000_000_000; }
    assert Power10(16) == 10_000_000_000_000_000 by { assert Power10(14) == 100_000_000_000_000; }
    assert Power10(19) == 10_000_000_000_000_000_000 by { assert Power10(18) == 1_000_000_000_000_000_000; }
    PrintNatLength(if v < 0 then -v else v, 19);
  }

  // ---- adding

  predicate IsControl(c: char) { c == '\t' || c == '\n' || c == '\r' }

  function Sanitised(s: string): (r: string)
    ensures |r| == |s|
    ensures forall i :: 0 <= i < |s| ==> r[i] == if IsControl(s[i]) then ' ' else s[i]
  {
    seq(|s|, i requires 0 <= i < |s| => if IsControl(s[i]) then ' ' else s[i])
  }

  function Entry(url: string, title: string, now: int): Bookmark {
    Bookmark(now, Sanitised(url), Sanitised(if title == "" then url else title))
  }

  /** Tabs, newlines and carriage returns become blanks; everything else stays. */
  lemma SanitisedExactly(s: string, i: nat)
    requires i < |s|
    ensures |Sanitised(s)| == |s|
    ensures Sanitised(s)[i] == if s[i] == '\t' || s[i] == '\n' || s[i] == '\r' then ' ' else s[i]
  {
  }

  /** A bookmark is of the time it is made, URL and title in one line each; its URL stands in for a missing title. */
  lemma EntryFields(url: string, title: string, now: int)
    ensures var b := Entry(url, title, now);
            b.when == now && b.url == Sanitised(url) && b.title == Sanitised(if title != "" then title else url)
  {
  }

  function RemoveFirst(items: seq<Bookmark>, url: string): seq<Bookmark> {
    if items == [] then []
    else if items[0].url == url then items[1..]
    else [items[0]] + RemoveFirst(items[1..], url)
  }

  /** Re-bookmarking a page moves it to the end. */
  function Added(items: seq<Bookmark>, entry: Bookmark): seq<Bookmark> {
    RemoveFirst(items, entry.url) + [entry]
  }

  function CountUrl(items: seq<Bookmark>, url: string): nat {
    if items == [] then 0 else (if items[0].url == url then 1 else 0) + CountUrl(items[1..], url)
  }

  /** The entries of other pages, in order. */
  function Others(items: seq<Bookmark>, url: string): seq<Bookmark> {
    if items == [] then []
    else (if items[0].url == url then [] else [items[0]]) + Others(items[1..], url)
  }

  predicate DistinctUrls(items: seq<Bookmark>) {
    forall i, j :: 0 <= i < j < |items| ==> items[i].url != items[j].url
  }

  lemma {:induction false} CountAppend(a: seq<Bookmark>, b: Bookmark, url: string)
    ensures CountUrl(a + [b], url) == CountUrl(a, url) + if b.url == url then 1 else 0
  {
    if a == [] {
      assert a + [b] == [b];
    } else {
      assert (a + [b])[1..] == a[1..] + [b];
      CountAppend(a[1..], b, url);
    }
  }

  lemma {:induction false} OthersAppend(a: seq<Bookmark>, b: Bookmark, url: string)
    ensures Others(a + [b], url) == Others(a, url) + if b.url == url then [] else [b]
  {
    if a == [] {
      assert a + [b] == [b];
    } else {
      assert (a + [b])[1..] == a[1..] + [b];
      OthersAppend(a[1..], b, url);
    }
  }

  lemma {:induction false} RemoveFirstCounts(items: seq<Bookmark>, url: string)
    ensures CountUrl(RemoveFirst(items, url), url) == if CountUrl(items, url) == 0 then 0 else CountUrl(items, url) - 1
    ensures Others(RemoveFirst(items, url), url) == Others(items, url)
  {
    if items != [] && items[0].url != url {
      RemoveFirstCounts(items[1..], url);
      assert RemoveFirst(items, url)[1..] == RemoveFirst(items[1..], url);
    }
  }

  /**
   Adding keeps every entry of every other page, in order, and puts the new entry last; a page that was there
   several times stays there as often, one that was not there is there once.
   */
  lemma AddedKeepsOthers(items: seq<Bookmark>, entry: Bookmark)
    ensures var r := Added(items, entry);
            && r[|r| - 1] == entry
            && Others(r, entry.url) == Others(items, entry.url)
            && CountUrl(r, entry.url) == if CountUrl(items, entry.url) == 0 then 1 else CountUrl(items, entry.url)
  {
    RemoveFirstCounts(items, entry.url);
    CountAppend(RemoveFirst(items, entry.url), entry, entry.url);
    OthersAppend(RemoveFirst(items, entry.url), entry, entry.url);
  }

  function AddAll(items: seq<Bookmark>, entries: seq<Bookmark>): seq<Bookmark> {
    if entries == [] then items else Added(AddAll(items, entries[..|entries| - 1]), entries[|entries| - 1])
  }

  /** The last entry of each page, in order of those last entries. */
  function LastOfEach(items: seq<Bookmark>): seq<Bookmark> {
    if items == [] then []
    else (if CountUrl(items[1..], items[0].url) > 0 then [] else [items[0]]) + LastOfEach(items[1..])
  }

  lemma {:induction false} LastOfEachAppend(items: seq<Bookmark>, entry: Bookmark)
    ensures LastOfEach(items + [entry]) == Others(LastOfEach(items), entry.url) + [entry]
  {
    if items == [] {
      assert items + [entry] == [entry];
    } else {
      assert (items + [entry])[1..] == items[1..] + [entry];
      LastOfEachAppend(items[1..], entry);
      CountAppend(items[1..], entry, items[0].url);
      var rest := LastOfEach(items[1..]);
      if CountUrl(items[1..], items[0].url) > 0 {
        assert LastOfEach(items) == rest;
      } else {
        assert LastOfEach(items) == [items[0]] + rest;
        assert ([items[0]] + rest)[1..] == rest;
      }
    }
  }

  lemma {:induction false} CountZero(items: seq<Bookmark>, url: string)
    ensures CountUrl(items, url) == 0 <==> forall i :: 0 <= i < |items| ==> items[i].url != url
    ensures CountUrl(items, url) == 0 ==> Others(items, url) == items && RemoveFirst(items, url) == items
  {
    if items != [] {
      CountZero(items[1..], url);
      assert forall i :: 0 < i < |items| ==> items[i] == items[1..][i - 1];
      assert items == [items[0]] + items[1..];
    }
  }

  /** With distinct pages, removing the first entry of a page removes the page. */
  lemma {:induction false} RemoveFirstOfDistinct(items: seq<Bookmark>, url: string)
    requires DistinctUrls(items)
    ensures RemoveFirst(items, url) == Others(items, url)
  {
    if items != [] {
      if items[0].url == url {
        CountZero(items[1..], url);
      } else {
        RemoveFirstOfDistinct(items[1..], url);
      }
    }
  }

  lemma {:induction false} OthersDistinct(items: seq<Bookmark>, url: string)
    requires DistinctUrls(items)
    ensures DistinctUrls(Others(items, url))
    ensures forall b :: b in Others(items, url) <==> b in items && b.url != url
  {
    if items != [] {
      OthersDistinct(items[1..], url);
      forall b | b in Others(items[1..], url) ensures b.url != items[0].url {
        assert b in items[1..];
      }
    }
  }

  lemma {:induction false} DistinctIsLastOfEach(items: seq<Bookmark>)
    requires DistinctUrls(items)
    ensures LastOfEach(items) == items
  {
    if items != [] {
      DistinctIsLastOfEach(items[1..]);
      CountZero(items[1..], items[0].url);
    }
  }

  /**
   Over any run of additions a list of distinct pages stays one, and holds exactly the latest entry of every page
   ever in it, ordered by when that entry was made.
   */
  lemma {:induction false} AddAllKeepsLatest(items: seq<Bookmark>, entries: seq<Bookmark>)
    requires DistinctUrls(items)
    ensures AddAll(items, entries) == LastOfEach(items + entries)
    ensures DistinctUrls(AddAll(items, entries))
  {
    if entries == [] {
      assert items + entries == items;
      DistinctIsLastOfEach(items);
    } else {
      var before, entry := entries[..|entries| - 1], entries[|entries| - 1];
      AddAllKeepsLatest(items, before);
      assert items + entries == items + before + [entry];
      LastOfEachAppend(items + before, entry);
      RemoveFirstOfDistinct(AddAll(items, before), entry.url);
      OthersDistinct(AddAll(items, before), entry.url);
    }
  }

  lemma {:induction false} LastOfEachIsLatest(items: seq<Bookmark>, i: nat)
    requires i < |items|
    ensures items[i] in LastOfEach(items) || exists j :: i < j < |items| && items[j].url == items[i].url
  {
    if i == 0 {
      CountZero(items[1..], items[0].url);
      if CountUrl(items[1..], items[0].url) > 0 {
        var k :| 0 <= k < |items[1..]| && items[1..][k].url == items[0].url;
        assert items[k + 1].url == items[0].url;
      }
    } else {
      LastOfEachIsLatest(items[1..], i - 1);
      if items[1..][i - 1] !in LastOfEach(items[1..]) {
        var j :| i - 1 < j < |items[1..]| && items[1..][j].url == items[1..][i - 1].url;
        assert items[j + 1].url == items[i].url;
      }
    }
  }

  // ---- the store

  function From(text: string, i: nat): string {
    if i <= |text| then text[i..] else ""
  }

  lemma ParseStep(text: string, i: nat, clamp: int -> int)
    requires i < |text|
    ensures var line := Before(text[i..], '\n');
            Parse(From(text, i), clamp) == Kept(line, clamp) + Parse(From(text, i + |line| + 1), clamp)
  {
    hide Kept, Parse;
    var line := Before(text[i..], '\n');
    assert Rest(text[i..], '\n') == From(text, i + |line| + 1);
    ParseUnfold(text[i..], clamp);
  }

  lemma ParseUnfold(text: string, clamp: int -> int)
    requires text != ""
    ensures Parse(text, clamp) == Kept(Before(text, '\n'), clamp) + Parse(Rest(text, '\n'), clamp)
  {
  }

  lemma KeptIs(line: string, clamp: int -> int)
    ensures Kept(line, clamp) == if ParseLine(line, clamp).Some? then [ParseLine(line, clamp).value] else []
  {
  }

  lemma FromStart(text: string)
    ensures From(text, 0) == text
  {
  }

  lemma PastEnd(text: string, i: nat)
    requires i >= |text|
    ensures From(text, i) == ""
  {
  }

  lemma ParseEnd(clamp: int -> int)
    ensures Parse("", clamp) == []
  {
  }

  /** Of several entries of a page the first is the one that goes. */
  lemma RemoveAt(items: seq<Bookmark>, url: string, i: nat)
    requires i <= |items| && forall k :: 0 <= k < i ==> items[k].url != url
    requires i < |items| ==> items[i].url == url
    ensures RemoveFirst(items, url) == if i < |items| then items[..i] + items[i + 1..] else items
  {
    if i > 0 {
      RemoveAt(items[1..], url, i - 1);
    }
  }

  /** The store and the file behind it; `file` is what a reader finds there. */
  class BookmarkStore {
    var items: seq<Bookmark>
    var loaded: bool
    var file: string
    const clamp: int -> int

    ghost predicate Valid()
      reads this
    {
      && Clamps(clamp)
      && (loaded ==> AllStorable(items))
      && (!loaded ==> items == [])
    }

    /** The list the store stands for, whether or not it has been read yet. */
    ghost function Contents(): seq<Bookmark>
      reads this
    {
      if loaded then items else Parse(file, clamp)
    }

    constructor (file: string, clamp: int -> int)
      requires Clamps(clamp)
      ensures Valid() && !loaded && this.file == file && this.clamp == clamp
    {
      items, loaded, this.file, this.clamp := [], false, file, clamp;
    }

    method EnsureLoaded()
      requires Valid()
      modifies `items, `loaded
      ensures Valid() && loaded && items == old(Contents())
    {
      if loaded {
        return;
      }
      loaded := true;
      Load();
      ParsedStorable(file, clamp);
    }

    /** The loop over the lines of the file. */
    method Load()
      requires items == []
      modifies `items
      ensures items == Parse(file, clamp)
    {
      FromStart(file);
      hide *;
      assert items + Parse(file, clamp) == Parse(file, clamp);
      var start := 0;
      while start < |file|
        invariant items + Parse(From(file, start), clamp) == Parse(file, clamp)
        decreases |file| - start
      {
        var line := Before(file[start..], '\n');
        ParseStep(file, start, clamp);
        Associative(items, Kept(line, clamp), Parse(From(file, start + |line| + 1), clamp));
        KeptIs(line, clamp);
        var b := ParseLine(line, clamp);
        if b.Some? {
          items := items + [b.value];
        } else {
          assert items + [] == items;
        }
        start := start + |line| + 1;
      }
      PastEnd(file, start);
      ParseEnd(clamp);
      assert items + [] == items;
    }

    method Save()
      requires Valid()
      modifies `file
      ensures file == Print(items)
    {
      file := "";
      for i := 0 to |items|
        invariant file == Print(items[..i])
      {
        var header := PrintInt(items[i].when) + ['\t'];
        var line := header + items[i].url + ['\t'] + items[i].title + ['\n'];
        file := file + line;
        assert items[..i + 1][..i] == items[..i];
      }
      assert items[..|items|] == items;
    }

    /** `now` is the clock. */
    method Add(url: string, title: string, now: int)
      requires Valid() && IsTime(now)
      modifies `items, `loaded, `file
      ensures Valid()
      ensures url == "" ==> unchanged(this)
      ensures url != "" ==>
                && Contents() == Added(old(Contents()), Entry(url, title, now))
                && Parse(file, clamp) == Contents()
                && Contents() != []
                && var last := Contents()[|Contents()| - 1];
                   && last.when == now && last.url == Sanitised(url)
                   && last.title == Sanitised(if title != "" then title else url)
    {
      if url == "" {
        return;
      }
      var entry := Entry(url, title, now);
      EnsureLoaded();
      ghost var was := items;
      Erase(entry.url);
      items := items + [entry];
      EntryStorable(url, title, now);
      AddedStorable(was, entry);
      Save();
      ParsePrinted(items, clamp);
    }

    /** The loop of Add: the first entry of a page goes. */
    method Erase(url: string)
      modifies `items
      ensures items == RemoveFirst(old(items), url)
    {
      var i := 0;
      while i < |items| && items[i].url != url
        invariant i <= |items|
        invariant forall k :: 0 <= k < i ==> items[k].url != url
      {
        i := i + 1;
      }
      RemoveAt(items, url, i);
      if i < |items| {
        items := items[..i] + items[i + 1..];
      }
    }

    method All() returns (r: seq<Bookmark>)
      requires Valid()
      modifies `items, `loaded
      ensures Valid() && r == old(Contents()) == Contents() && file == old(file)
    {
      EnsureLoaded();
      r := items;
    }
  }

  lemma EntryStorable(url: string, title: string, now: int)
    requires url != "" && IsTime(now)
    ensures Storable(Entry(url, title, now))
  {
  }

  lemma {:induction false} AddedStorable(items: seq<Bookmark>, entry: Bookmark)
    requires AllStorable(items) && Storable(entry)
    ensures AllStorable(Added(items, entry))
  {
    if items != [] && items[0].url != entry.url {
      AddedStorable(items[1..], entry);
      assert forall b :: b in Added(items[1..], entry) ==> Storable(b);
      assert Added(items, entry) == [items[0]] + Added(items[1..], entry);
    }
  }
}
