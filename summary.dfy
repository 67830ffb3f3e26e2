/**
 * The summary panel's figures: per category, in canonical order, how many
 * entries there are and how many hours they add up to; the two totals; the
 * relative bar width of each category and the count label.
 *
 * Hours are real numbers here, so sums are exact and the order in which they
 * are accumulated does not matter.
 */
module Summary {
  import opened Journal

  /** One row of the breakdown. */
  datatype CategorySummary = CategorySummary(category: Category, count: nat, hours: real, color: string)

  /** `entries.filter(e => e.category === c)`, in the entries' order. */
  function InCategory(entries: seq<JournalEntry>, c: Category): (r: seq<JournalEntry>)
    ensures |r| <= |entries|
    ensures forall e :: e in r <==> e in entries && e.category == c
  {
    if entries == [] then []
    else if entries[0].category == c then [entries[0]] + InCategory(entries[1..], c)
    else InCategory(entries[1..], c)
  }

  /** No entry has negative hours. */
  predicate NoNegativeHours(entries: seq<JournalEntry>) {
    forall i :: 0 <= i < |entries| ==> entries[i].hoursSpent >= 0.0
  }

  /** The hours of a run of entries added up, starting from 0; never negative when no entry is. */
  function SumHours(entries: seq<JournalEntry>): (r: real)
    ensures entries == [] ==> r == 0.0
    ensures NoNegativeHours(entries) ==> r >= 0.0
  {
    if entries == [] then 0.0
    else
      assert NoNegativeHours(entries) ==> NoNegativeHours(entries[1..]) by {
        if NoNegativeHours(entries) {
          forall i | 0 <= i < |entries[1..]| ensures entries[1..][i].hoursSpent >= 0.0 {
            assert entries[1..][i] == entries[i + 1];
          }
        }
      }
      entries[0].hoursSpent + SumHours(entries[1..])
  }

  /**
   * The row for one category: it counts no more entries than there are, and
   * when no hours are negative its hours lie between 0 and the hours of all
   * entries.
   */
  function CategoryRow(entries: seq<JournalEntry>, c: Category): (r: CategorySummary)
    ensures r.category == c && r.color == CategoryColor(c)
    ensures r.count <= |entries|
    ensures NoNegativeHours(entries) ==> 0.0 <= r.hours <= SumHours(entries)
  {
    var matching := InCategory(entries, c);
    assert NoNegativeHours(entries) ==> 0.0 <= SumHours(matching) <= SumHours(entries) by {
      if NoNegativeHours(entries) {
        CategoryHoursBounded(entries, c);
      }
    }
    CategorySummary(c, |matching|, SumHours(matching), CategoryColor(c))
  }

  /** `CATEGORIES.map(...)`: one row per category, in canonical order, zero rows kept. */
  function Summarize(entries: seq<JournalEntry>): (r: seq<CategorySummary>)
    ensures |r| == |Categories|
    ensures forall i :: 0 <= i < |r| ==> r[i].category == Categories[i] && r[i].color == CategoryColor(Categories[i])
    ensures forall i :: 0 <= i < |r| ==>
      r[i].count == |InCategory(entries, Categories[i])| && r[i].hours == SumHours(InCategory(entries, Categories[i]))
  {
    seq(|Categories|, i requires 0 <= i < |Categories| => CategoryRow(entries, Categories[i]))
  }

  /**
   * `summary.reduce((sum, s) => sum + s.hours, 0)`. When no row has negative
   * hours, the total is at least every row's hours.
   */
  function TotalHours(summary: seq<CategorySummary>): (r: real)
    ensures summary == [] ==> r == 0.0
    ensures (forall i :: 0 <= i < |summary| ==> summary[i].hours >= 0.0) ==>
      r >= 0.0 && forall i :: 0 <= i < |summary| ==> summary[i].hours <= r
  {
    if summary == [] then 0.0
    else
      assert forall i :: 1 <= i < |summary| ==> summary[1..][i - 1] == summary[i];
      summary[0].hours + TotalHours(summary[1..])
  }

  /** `summary.reduce((sum, s) => sum + s.count, 0)`: at least every row's count. */
  function TotalActivities(summary: seq<CategorySummary>): (r: nat)
    ensures summary == [] ==> r == 0
    ensures forall i :: 0 <= i < |summary| ==> summary[i].count <= r
  {
    if summary == [] then 0
    else
      assert forall i :: 1 <= i < |summary| ==> summary[1..][i - 1] == summary[i];
      summary[0].count + TotalActivities(summary[1..])
  }

  /** Sums over the four rows, spelled out. */
  lemma SummaryTotalsUnfold(entries: seq<JournalEntry>)
    ensures var s := Summarize(entries);
      TotalActivities(s) == s[0].count + s[1].count + s[2].count + s[3].count
      && TotalHours(s) == s[0].hours + s[1].hours + s[2].hours + s[3].hours
  {
    var s := Summarize(entries);
    var s1 := s[1..];
    var s2 := s1[1..];
    var s3 := s2[1..];
    assert s3[1..] == [];
    assert TotalActivities(s3) == s3[0].count && TotalHours(s3) == s3[0].hours;
    assert TotalActivities(s2) == s2[0].count + TotalActivities(s3);
    assert TotalHours(s2) == s2[0].hours + TotalHours(s3);
    assert TotalActivities(s1) == s1[0].count + TotalActivities(s2);
    assert TotalHours(s1) == s1[0].hours + TotalHours(s2);
  }

  /** Each entry falls in exactly one category, so the four counts add up to the number of entries. */
  lemma {:induction false} CategoriesPartitionCount(entries: seq<JournalEntry>)
    ensures |InCategory(entries, FirmBuilding)| + |InCategory(entries, PracticeBuilding)|
          + |InCategory(entries, PersonalEminence)| + |InCategory(entries, PersonalDevelopment)| == |entries|
    decreases |entries|
  {
    if entries != [] {
      CategoriesPartitionCount(entries[1..]);
    }
  }

  /** Likewise the four hour sums add up to the hours of all entries. */
  lemma {:induction false} CategoriesPartitionHours(entries: seq<JournalEntry>)
    ensures SumHours(InCategory(entries, FirmBuilding)) + SumHours(InCategory(entries, PracticeBuilding))
          + SumHours(InCategory(entries, PersonalEminence)) + SumHours(InCategory(entries, PersonalDevelopment))
         == SumHours(entries)
    decreases |entries|
  {
    if entries != [] {
      CategoriesPartitionHours(entries[1..]);
      InCategoryHoursStep(entries, FirmBuilding);
      InCategoryHoursStep(entries, PracticeBuilding);
      InCategoryHoursStep(entries, PersonalEminence);
      InCategoryHoursStep(entries, PersonalDevelopment);
    }
  }

  /** The filtered hours, one entry at a time. */
  lemma InCategoryHoursStep(entries: seq<JournalEntry>, c: Category)
    requires entries != []
    ensures SumHours(InCategory(entries, c))
         == (if entries[0].category == c then entries[0].hoursSpent else 0.0) + SumHours(InCategory(entries[1..], c))
  {
    var rest := InCategory(entries[1..], c);
    if entries[0].category == c {
      assert ([entries[0]] + rest)[1..] == rest;
    }
  }

  /** The activity total is the number of entries. */
  lemma TotalActivitiesIsEntryCount(entries: seq<JournalEntry>)
    ensures TotalActivities(Summarize(entries)) == |entries|
  {
    SummaryTotalsUnfold(entries);
    CategoriesPartitionCount(entries);
  }

  /** The hours total is the sum of every entry's hours. */
  lemma TotalHoursIsEntryHours(entries: seq<JournalEntry>)
    ensures TotalHours(Summarize(entries)) == SumHours(entries)
  {
    SummaryTotalsUnfold(entries);
    CategoriesPartitionHours(entries);
  }

  /**
   * The filter keeps every entry of the category as often as it occurs and
   * nothing else, so a row's count is the number of entries of its category.
   */
  lemma {:induction false} InCategoryMultiset(entries: seq<JournalEntry>, c: Category, e: JournalEntry)
    ensures multiset(InCategory(entries, c))[e] == if e.category == c then multiset(entries)[e] else 0
    decreases |entries|
  {
    if entries != [] {
      InCategoryMultiset(entries[1..], c, e);
      assert entries == [entries[0]] + entries[1..];
      assert multiset(entries) == multiset{entries[0]} + multiset(entries[1..]);
    }
  }

  /** With no entries every row and both totals are zero, and all four rows are still there. */
  lemma EmptySummary()
    ensures |Summarize([])| == 4
    ensures forall i :: 0 <= i < 4 ==> Summarize([])[i].count == 0 && Summarize([])[i].hours == 0.0
    ensures TotalActivities(Summarize([])) == 0 && TotalHours(Summarize([])) == 0.0
  {
    TotalActivitiesIsEntryCount([]);
    TotalHoursIsEntryHours([]);
  }

  /** The width of a category's bar, in percent of the full bar. */
  function BarWidth(hours: real, totalHours: real): (r: real)
    ensures totalHours <= 0.0 ==> r == 0.0
    ensures totalHours > 0.0 ==> r * totalHours == hours * 100.0
  {
    if totalHours > 0.0 then hours / totalHours * 100.0 else 0.0
  }

  /** The hours of one category never exceed the sum over all entries when no hours are negative. */
  lemma {:induction false} CategoryHoursBounded(entries: seq<JournalEntry>, c: Category)
    requires NoNegativeHours(entries)
    ensures 0.0 <= SumHours(InCategory(entries, c)) <= SumHours(entries)
    decreases |entries|
  {
    if entries != [] {
      CategoryHoursBounded(entries[1..], c);
    }
  }

  /**
   * When no entry has negative hours, every bar is between 0 and 100 percent
   * wide, and when the total is positive the four bars fill exactly 100 percent.
   */
  lemma BarWidthsFillTheBar(entries: seq<JournalEntry>)
    requires NoNegativeHours(entries)
    ensures var s := Summarize(entries); var t := TotalHours(s);
      forall i :: 0 <= i < |s| ==> 0.0 <= BarWidth(s[i].hours, t) <= 100.0
    ensures var s := Summarize(entries); var t := TotalHours(s);
      t > 0.0 ==>
        BarWidth(s[0].hours, t) + BarWidth(s[1].hours, t) + BarWidth(s[2].hours, t) + BarWidth(s[3].hours, t) == 100.0
  {
    var s := Summarize(entries);
    var t := TotalHours(s);
    TotalHoursIsEntryHours(entries);
    SummaryTotalsUnfold(entries);
    forall i | 0 <= i < |s| ensures 0.0 <= BarWidth(s[i].hours, t) <= 100.0 {
      CategoryHoursBounded(entries, Categories[i]);
      if t > 0.0 {
        BarWidthBounded(s[i].hours, t);
      }
    }
    if t > 0.0 {
      assert s[0].hours + s[1].hours + s[2].hours + s[3].hours == t;
      BarWidthsSum(s[0].hours, s[1].hours, s[2].hours, s[3].hours, t);
    }
  }

  lemma BarWidthBounded(h: real, t: real)
    requires 0.0 <= h <= t && t > 0.0
    ensures 0.0 <= BarWidth(h, t) <= 100.0
  {
  }

  lemma BarWidthsSum(a: real, b: real, c: real, d: real, t: real)
    requires t > 0.0 && a + b + c + d == t
    ensures BarWidth(a, t) + BarWidth(b, t) + BarWidth(c, t) + BarWidth(d, t) == 100.0
  {
    assert a / t + b / t + c / t + d / t == (a + b + c + d) / t;
  }

  /** The word after a category's count: singular exactly for a count of one. */
  function CountLabel(count: int): (r: string)
    ensures r == "activity" <==> count == 1
    ensures count != 1 ==> r == "activities"
  {
    if count == 1 then "activity" else "activities"
  }
}
