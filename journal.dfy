/**
 * The shared record type of the activity journal and the fixed category
 * table: the four categories, their canonical display order and the colour
 * token each one is drawn with.
 */
module Journal {
  import opened Wrappers

  /** The closed enumeration of activity categories. */
  datatype Category = FirmBuilding | PracticeBuilding | PersonalEminence | PersonalDevelopment

  /**
   * The text by which a category is stored, displayed and exported. Reading
   * the text back gives the category, so no two categories share a text.
   */
  function CategoryName(c: Category): (r: string)
    ensures |r| > 0
    ensures ParseCategory(r) == Some(c)
  {
    match c
    case FirmBuilding => "Firm Building"
    case PracticeBuilding => "Practice Building"
    case PersonalEminence => "Personal Eminence"
    case PersonalDevelopment => "Personal Development"
  }

  /** The category whose name is exactly `s`, if any: the enumeration's membership test. */
  function ParseCategory(s: string): (r: Option<Category>)
  {
    if s == "Firm Building" then Some(FirmBuilding)
    else if s == "Practice Building" then Some(PracticeBuilding)
    else if s == "Personal Eminence" then Some(PersonalEminence)
    else if s == "Personal Development" then Some(PersonalDevelopment)
    else None
  }

  /** Only a category's own name is recognised, and as that category. */
  lemma ParseCategorySound(s: string)
    ensures ParseCategory(s).Some? ==> CategoryName(ParseCategory(s).value) == s
  {
  }

  /** The text is accepted as a category exactly when it is one of the four names. */
  lemma ParseCategoryExactlyNames(s: string)
    ensures ParseCategory(s).Some? <==> exists c: Category :: CategoryName(c) == s
  {
    if ParseCategory(s).Some? {
      ParseCategorySound(s);
      assert CategoryName(ParseCategory(s).value) == s;
    }
  }

  /** Distinct categories have distinct names. */
  lemma CategoryNameInjective(c: Category, d: Category)
    ensures CategoryName(c) == CategoryName(d) ==> c == d
  {
  }

  /** The canonical category order used by every list and summary. */
  const Categories: seq<Category> :=
    [FirmBuilding, PracticeBuilding, PersonalEminence, PersonalDevelopment]

  /** The canonical order lists each category exactly once. */
  lemma CategoriesListEachOnce()
    ensures |Categories| == 4
    ensures forall c: Category :: c in Categories
    ensures forall i, j :: 0 <= i < j < |Categories| ==> Categories[i] != Categories[j]
  {
    forall c: Category ensures c in Categories {
      match c
      case FirmBuilding => assert Categories[0] == c;
      case PracticeBuilding => assert Categories[1] == c;
      case PersonalEminence => assert Categories[2] == c;
      case PersonalDevelopment => assert Categories[3] == c;
    }
  }

  /** The colour token a category is drawn with: always a `category-` token. */
  function CategoryColor(c: Category): (r: string)
    ensures |r| > 9 && r[..9] == "category-"
  {
    match c
    case FirmBuilding => "category-firm"
    case PracticeBuilding => "category-practice"
    case PersonalEminence => "category-eminence"
    case PersonalDevelopment => "category-development"
  }

  /** Distinct categories get distinct colour tokens. */
  lemma CategoryColorInjective(c: Category, d: Category)
    ensures c != d ==> CategoryColor(c) != CategoryColor(d)
  {
  }

  /**
   * One journal record. `no` is the 1-based position shown in lists, `hoursSpent`
   * is a real number (the source uses a floating-point number), the two activity
   * dates are the stored `yyyy-MM-dd` texts and `createdAt` the ISO creation time.
   */
  datatype JournalEntry = JournalEntry(
    id: string,
    no: int,
    category: Category,
    activityDetails: string,
    activityStart: string,
    activityEnd: string,
    hoursSpent: real,
    activityOwner: string,
    createdAt: string)
}
