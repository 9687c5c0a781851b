/** scan_zero_pages.py: runs of whole zero pages in the sections of a linked binary. */
module ZeroPages {
  import opened Wrappers
  import opened Words

  const PAGE := 4096
  const TEXT_RUN_LIMIT := 1
  const RODATA_RUN_LIMIT := 4

  /** `pages` zero pages from file offset `offset` on. */
  datatype Run = Run(offset: nat, pages: nat) {
    function End(): nat { offset + pages * PAGE }
  }

  /** A section of interest: its file range and its own alignment. */
  datatype Section = Section(isText: bool, start: nat, end: nat, align: nat)

  datatype Finding = Finding(section: Section, run: Run)

  /** A slice that runs past the end of the file is shorter than a page and so no zero page. */
  predicate ZeroPage(b: seq<Byte>, page: nat) {
    page + PAGE <= |b| && forall i :: page <= i < page + PAGE ==> b[i] == 0
  }

  /** A whole page between `first` and `end`, counted from `first`. */
  predicate PageWithin(first: nat, end: nat, page: int) {
    first <= page && page + PAGE <= end && (page - first) % PAGE == 0
  }

  /** r is a run of zero pages that no zero page of the section extends on either side. */
  ghost predicate MaximalRun(b: seq<Byte>, first: nat, end: nat, r: Run) {
    && r.pages >= 1
    && PageWithin(first, end, r.offset)
    && r.End() <= end
    && (forall k: nat :: k < r.pages ==> ZeroPage(b, r.offset + k * PAGE))
    && !(PageWithin(first, end, r.offset - PAGE) && ZeroPage(b, r.offset - PAGE))
    && !(PageWithin(first, end, r.End()) && ZeroPage(b, r.End()))
  }

  ghost predicate Ordered(runs: seq<Run>) {
    forall i, j :: 0 <= i < j < |runs| ==> runs[i].End() < runs[j].offset
  }

  ghost predicate ExactRuns(b: seq<Byte>, first: nat, end: nat, runs: seq<Run>) {
    && Ordered(runs)
    && (forall r :: r in runs ==> MaximalRun(b, first, end, r))
    && (forall r :: MaximalRun(b, first, end, r) ==> r in runs)
  }

  predicate EndsAt(runs: seq<Run>, page: nat) {
    runs != [] && runs[|runs| - 1].End() == page
  }

  // ---- one page more

  /** Runs that end before a page are the same with or without it. */
  lemma RunBeforePage(b: seq<Byte>, first: nat, page: nat, r: Run)
    requires PageWithin(first, page + PAGE, page) && r.End() < page
    ensures MaximalRun(b, first, page, r) <==> MaximalRun(b, first, page + PAGE, r)
  {
  }

  /** Runs that reach the end of the longer section, less their last page. */
  lemma RunOverPage(b: seq<Byte>, first: nat, page: nat, r: Run)
    requires PageWithin(first, page + PAGE, page) && MaximalRun(b, first, page + PAGE, r) && r.End() >= page
    ensures r.End() == page + PAGE || (r.End() == page && !ZeroPage(b, page))
    ensures r.End() == page + PAGE ==> ZeroPage(b, page)
    ensures r.End() == page + PAGE && r.pages > 1 ==> MaximalRun(b, first, page, Run(r.offset, r.pages - 1))
  {
    if r.End() == page + PAGE {
      assert ZeroPage(b, r.offset + (r.pages - 1) * PAGE);
    }
  }

  lemma RunAtPage(b: seq<Byte>, first: nat, page: nat, r: Run)
    requires PageWithin(first, page + PAGE, page) && r.End() == page
    ensures MaximalRun(b, first, page + PAGE, r) <==> MaximalRun(b, first, page, r) && !ZeroPage(b, page)
    ensures MaximalRun(b, first, page, r) && ZeroPage(b, page) ==>
              MaximalRun(b, first, page + PAGE, Run(r.offset, r.pages + 1))
  {
  }

  lemma NonZeroPage(b: seq<Byte>, first: nat, page: nat, runs: seq<Run>)
    requires ExactRuns(b, first, page, runs) && PageWithin(first, page + PAGE, page) && !ZeroPage(b, page)
    ensures ExactRuns(b, first, page + PAGE, runs)
  {
    forall r ensures MaximalRun(b, first, page, r) <==> MaximalRun(b, first, page + PAGE, r) {
      if r.End() < page {
        RunBeforePage(b, first, page, r);
      } else if r.End() == page {
        RunAtPage(b, first, page, r);
      } else if MaximalRun(b, first, page + PAGE, r) {
        RunOverPage(b, first, page, r);
      }
    }
  }

  lemma LastRunEnds(b: seq<Byte>, first: nat, page: nat, runs: seq<Run>, r: Run)
    requires ExactRuns(b, first, page, runs) && r in runs && r.End() == page
    ensures runs[|runs| - 1] == r
  {
    var i :| 0 <= i < |runs| && runs[i] == r;
    assert runs[|runs| - 1] in runs;
  }

  /** The zero pages right before a page. */
  function ZerosBefore(b: seq<Byte>, first: nat, page: nat): (n: nat)
    requires first <= page
    ensures n * PAGE <= page - first
    ensures forall k: nat :: k < n ==> ZeroPage(b, page - n * PAGE + k * PAGE)
    ensures !(PageWithin(first, page, page - n * PAGE - PAGE) && ZeroPage(b, page - n * PAGE - PAGE))
  {
    if PageWithin(first, page, page - PAGE) && ZeroPage(b, page - PAGE)
    then 1 + ZerosBefore(b, first, page - PAGE) else 0
  }

  /** A zero page right before a page belongs to a run that ends there. */
  lemma ZeroBefore(b: seq<Byte>, first: nat, page: nat, runs: seq<Run>)
    requires ExactRuns(b, first, page, runs)
    requires PageWithin(first, page, page - PAGE) && ZeroPage(b, page - PAGE)
    ensures EndsAt(runs, page)
  {
    var n := ZerosBefore(b, first, page);
    var r := Run(page - n * PAGE, n);
    assert MaximalRun(b, first, page, r);
    LastRunEnds(b, first, page, runs, r);
  }

  lemma OpensRun(b: seq<Byte>, first: nat, page: nat, runs: seq<Run>)
    requires ExactRuns(b, first, page, runs) && PageWithin(first, page + PAGE, page) && ZeroPage(b, page)
    requires !EndsAt(runs, page)
    ensures ExactRuns(b, first, page + PAGE, runs + [Run(page, 1)])
  {
    if PageWithin(first, page, page - PAGE) && ZeroPage(b, page - PAGE) { ZeroBefore(b, first, page, runs); }
    assert MaximalRun(b, first, page + PAGE, Run(page, 1)) by {
      assert forall k: nat :: k < 1 ==> page + k * PAGE == page;
    }
    forall r ensures r in runs ==> r.End() < page {
      if r in runs && r.End() == page { LastRunEnds(b, first, page, runs, r); }
    }
    forall r ensures MaximalRun(b, first, page + PAGE, r) <==> r in runs + [Run(page, 1)] {
      if r.End() < page {
        RunBeforePage(b, first, page, r);
      } else if MaximalRun(b, first, page + PAGE, r) {
        RunOverPage(b, first, page, r);
      }
    }
  }

  /** The run over the new page is the last run with that page added. */
  lemma OnlyLongerRun(b: seq<Byte>, first: nat, page: nat, runs: seq<Run>, r: Run)
    requires ExactRuns(b, first, page, runs) && PageWithin(first, page + PAGE, page) && EndsAt(runs, page)
    requires MaximalRun(b, first, page + PAGE, r) && r.End() == page + PAGE
    ensures r == Run(runs[|runs| - 1].offset, runs[|runs| - 1].pages + 1)
  {
    var last := runs[|runs| - 1];
    assert last in runs;
    assert ZeroPage(b, page - PAGE) by { assert ZeroPage(b, last.offset + (last.pages - 1) * PAGE); }
    RunOverPage(b, first, page, r);
    LastRunEnds(b, first, page, runs, Run(r.offset, r.pages - 1));
  }

  lemma ExtendsRun(b: seq<Byte>, first: nat, page: nat, runs: seq<Run>)
    requires ExactRuns(b, first, page, runs) && PageWithin(first, page + PAGE, page) && ZeroPage(b, page)
    requires EndsAt(runs, page)
    ensures var n := |runs| - 1;
            ExactRuns(b, first, page + PAGE, runs[..n] + [Run(runs[n].offset, runs[n].pages + 1)])
  {
    var n := |runs| - 1;
    var last := runs[n];
    var longer := Run(last.offset, last.pages + 1);
    assert last in runs;
    RunAtPage(b, first, page, last);
    assert last.offset < page;
    hide MaximalRun, ZeroPage, PageWithin;
    forall r ensures MaximalRun(b, first, page + PAGE, r) <==> r in runs[..n] + [longer] {
      LongerRuns(b, first, page, runs, r);
    }
  }

  lemma LongerRuns(b: seq<Byte>, first: nat, page: nat, runs: seq<Run>, r: Run)
    requires ExactRuns(b, first, page, runs) && PageWithin(first, page + PAGE, page) && ZeroPage(b, page)
    requires EndsAt(runs, page)
    requires var last := runs[|runs| - 1];
             last.offset < page && MaximalRun(b, first, page + PAGE, Run(last.offset, last.pages + 1))
    ensures var last := runs[|runs| - 1];
            MaximalRun(b, first, page + PAGE, r) <==> r in runs[..|runs| - 1] || r == Run(last.offset, last.pages + 1)
  {
    hide MaximalRun, ZeroPage, PageWithin;
    var n := |runs| - 1;
    assert r in runs ==> r in runs[..n] || r == runs[n];
    if r in runs[..n] {
      var i :| 0 <= i < n && runs[i] == r;
      assert r in runs && r.End() < runs[n].offset;
      RunBeforePage(b, first, page, r);
    } else if r.End() < page {
      RunBeforePage(b, first, page, r);
    } else if MaximalRun(b, first, page + PAGE, r) {
      RunOverPage(b, first, page, r);
      OnlyLongerRun(b, first, page, runs, r);
    }
  }

  /** The pages a scan from `first` leaves over at the end are no whole pages. */
  lemma ScanEnds(b: seq<Byte>, first: nat, page: nat, end: nat, runs: seq<Run>)
    requires ExactRuns(b, first, page, runs) && first <= page && (page - first) % PAGE == 0
    requires page + PAGE > end && (page <= end || page == first)
    ensures ExactRuns(b, first, end, runs)
  {
    forall r ensures MaximalRun(b, first, page, r) <==> MaximalRun(b, first, end, r) {
      SamePages(first, page, end, r.offset);
      SamePages(first, page, end, r.offset - PAGE);
      SamePages(first, page, end, r.End());
      SamePages(first, page, end, r.End() - PAGE);
    }
  }

  lemma SamePages(first: nat, page: nat, end: nat, p: int)
    requires first <= page && (page - first) % PAGE == 0 && page + PAGE > end && (page <= end || page == first)
    ensures PageWithin(first, page, p) <==> PageWithin(first, end, p)
  {
  }

  lemma NoRuns(b: seq<Byte>, first: nat)
    ensures ExactRuns(b, first, first, [])
  {
  }

  lemma WholePage(first: nat, page: nat)
    requires first <= page && (page - first) % PAGE == 0
    ensures PageWithin(first, page + PAGE, page)
  {
  }

  function FirstPage(start: nat): nat {
    (start + PAGE - 1) / PAGE * PAGE
  }

  /** The scan starts at the least multiple of 4096 that is not below the section's start. */
  lemma FirstPageLeast(start: nat)
    ensures start <= FirstPage(start) < start + 4096 && FirstPage(start) % 4096 == 0
    ensures forall p: nat :: start <= p && p % 4096 == 0 ==> FirstPage(start) <= p
  {
    var n := start + 4095;
    assert FirstPage(start) == n / 4096 * 4096 && n == n / 4096 * 4096 + n % 4096;
    forall p: nat | start <= p && p % 4096 == 0 ensures FirstPage(start) <= p {
      assert p == p / 4096 * 4096;
    }
  }

  lemma ZeroPageExactly(b: seq<Byte>, page: nat)
    ensures ZeroPage(b, page) <==> page + 4096 <= |b| && forall i :: page <= i < page + 4096 ==> b[i] == 0
  {
  }

  /** All maximal runs of zero pages in a section, in order. */
  method ScanSection(b: seq<Byte>, start: nat, end: nat) returns (runs: seq<Run>)
    ensures ExactRuns(b, FirstPage(start), end, runs)
  {
    hide FirstPage, ZeroPage, ExactRuns, PageWithin;
    var first := FirstPage(start);
    NoRuns(b, first);
    runs := [];
    var page := first;
    while page + PAGE <= end
      invariant first <= page && (page - first) % PAGE == 0 && (page <= end || page == first)
      invariant ExactRuns(b, first, page, runs)
      decreases end - page
    {
      WholePage(first, page);
      if ZeroPage(b, page) {
        if runs != [] && runs[|runs| - 1].offset + runs[|runs| - 1].pages * PAGE == page {
          ExtendsRun(b, first, page, runs);
          var n := |runs| - 1;
          runs := runs[..n] + [Run(runs[n].offset, runs[n].pages + 1)];
        } else {
          OpensRun(b, first, page, runs);
          runs := runs + [Run(page, 1)];
        }
      } else {
        NonZeroPage(b, first, page, runs);
      }
      page := page + PAGE;
    }
    ScanEnds(b, first, page, end, runs);
  }

  // ---- every zero page is in a run

  function ZerosFrom(b: seq<Byte>, first: nat, end: nat, page: nat): (n: nat)
    requires first <= page && (page - first) % PAGE == 0 && page <= end
    ensures page + n * PAGE <= end
    ensures forall k: nat :: k < n ==> ZeroPage(b, page + k * PAGE)
    ensures !(PageWithin(first, end, page + n * PAGE) && ZeroPage(b, page + n * PAGE))
    decreases end - page
  {
    if page + PAGE <= end && ZeroPage(b, page) then
      var m := ZerosFrom(b, first, end, page + PAGE);
      ZerosShift(b, page, m);
      m + 1
    else 0
  }

  lemma ZerosShift(b: seq<Byte>, page: nat, m: nat)
    requires ZeroPage(b, page) && forall k: nat :: k < m ==> ZeroPage(b, page + PAGE + k * PAGE)
    ensures forall k: nat :: k < m + 1 ==> ZeroPage(b, page + k * PAGE)
  {
    forall k: nat | k < m + 1 ensures ZeroPage(b, page + k * PAGE) {
      if k > 0 { assert ZeroPage(b, page + PAGE + (k - 1) * PAGE); }
    }
  }

  lemma ZeroPageInRun(b: seq<Byte>, first: nat, end: nat, page: nat)
    requires PageWithin(first, end, page) && ZeroPage(b, page)
    ensures exists r :: MaximalRun(b, first, end, r) && r.offset <= page < r.End()
  {
    var n, m := ZerosBefore(b, first, page), ZerosFrom(b, first, end, page);
    var r := Run(page - n * PAGE, n + m);
    forall k: nat | k < r.pages ensures ZeroPage(b, r.offset + k * PAGE) {
      if k >= n { assert r.offset + k * PAGE == page + (k - n) * PAGE; }
    }
    assert MaximalRun(b, first, end, r);
  }

  /** Zeros over two pages less a byte always take in a whole page, and so show up as a run. */
  lemma LongStretchIsSeen(b: seq<Byte>, start: nat, end: nat, lo: nat, hi: nat)
    requires FirstPage(start) <= lo && lo + 2 * PAGE - 1 <= hi <= end && hi <= |b|
    requires forall i :: lo <= i < hi ==> b[i] == 0
    ensures exists r :: MaximalRun(b, FirstPage(start), end, r) && r.offset < hi && lo < r.End()
  {
    var first := FirstPage(start);
    var page := first + (lo - first + 4095) / PAGE * PAGE;
    assert lo <= page && page + PAGE <= hi;
    assert ZeroPage(b, page);
    ZeroPageInRun(b, first, end, page);
  }

  // ---- the verdict

  /** A run ending on one of the section's own alignment boundaries is padding. */
  predicate IsPadding(s: Section, r: Run) {
    s.align >= PAGE && r.End() % s.align == 0
  }

  predicate Damage(s: Section, r: Run) {
    !IsPadding(s, r) && r.pages >= if s.isText then TEXT_RUN_LIMIT else RODATA_RUN_LIMIT
  }

  /** The findings, or None when the binary has neither section; an accepted binary is one without findings. */
  method ScanBinary(b: seq<Byte>, sections: seq<Section>) returns (findings: Option<seq<Finding>>)
    ensures findings.None? <==> sections == []
    ensures findings.Some? ==>
              forall s, r :: Finding(s, r) in findings.value <==>
                s in sections && MaximalRun(b, FirstPage(s.start), s.end, r) && Damage(s, r)
    ensures findings.Some? ==>
              (findings.value == [] <==>
               forall s, r :: s in sections && MaximalRun(b, FirstPage(s.start), s.end, r) ==>
                 (s.align >= 4096 && r.End() % s.align == 0) || r.pages < if s.isText then 1 else 4)
  {
    if sections == [] {
      return None;
    }
    hide MaximalRun, ZeroPage, PageWithin, FirstPage;
    var bad: seq<Finding> := [];
    for i := 0 to |sections|
      invariant forall s, r :: Finding(s, r) in bad <==>
                  s in sections[..i] && MaximalRun(b, FirstPage(s.start), s.end, r) && Damage(s, r)
    {
      var s := sections[i];
      ghost var before := bad;
      var runs := ScanSection(b, s.start, s.end);
      for k := 0 to |runs|
        invariant forall f :: f in bad <==> f in before || (f.section == s && f.run in runs[..k] && Damage(s, f.run))
      {
        var r := runs[k];
        assert runs[..k + 1] == runs[..k] + [r];
        if Damage(s, r) {
          bad := bad + [Finding(s, r)];
        }
      }
      assert runs[..|runs|] == runs;
      assert sections[..i + 1] == sections[..i] + [s];
    }
    assert sections[..|sections|] == sections;
    if bad != [] {
      var f := bad[0];
      assert Finding(f.section, f.run) in bad;
    }
    return Some(bad);
  }
}
