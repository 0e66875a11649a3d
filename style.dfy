/**
 * The colours of the parent dashboard: the five-band ladder that colours a
 * grade badge by its score, and the case-insensitive table that colours a
 * subject label by the subject's name.
 */
module Style {

  /** An AWT colour as its red, green and blue components. */
  datatype Color = Color(red: int, green: int, blue: int)

  /** The components AWT accepts for a colour: each in 0..255. */
  predicate IsRgb(c: Color)
  {
    0 <= c.red <= 255 && 0 <= c.green <= 255 && 0 <= c.blue <= 255
  }

  /** The five colour bands of a grade badge, from the highest scores down. */
  datatype Band = Green | LightGreen | Orange | Yellow | Red

  /** A band's place in the ladder: Red is 0, Green is 4. */
  function Rank(b: Band): nat
  {
    match b
    case Red => 0
    case Yellow => 1
    case Orange => 2
    case LightGreen => 3
    case Green => 4
  }

  /**
   * The scores each band covers, as closed ranges: 90 and above, 76..89,
   * 61..75, 51..60, and 50 and below.
   */
  predicate InBand(score: int, b: Band)
  {
    match b
    case Green => 90 <= score
    case LightGreen => 76 <= score <= 89
    case Orange => 61 <= score <= 75
    case Yellow => 51 <= score <= 60
    case Red => score <= 50
  }

  /**
   * The band of a score, by the ladder of the grade colour: inclusive at 90,
   * strict at 75, 60 and 50. Every score lands in the range of its band and
   * in no other.
   */
  function GradeBand(score: int): (b: Band)
    ensures InBand(score, b)
    ensures forall other: Band :: InBand(score, other) ==> other == b
  {
    if score >= 90 then Green
    else if score > 75 then LightGreen
    else if score > 60 then Orange
    else if score > 50 then Yellow
    else Red
  }

  /** The RGB value the dashboard paints for each band, a valid AWT colour. */
  function BandColor(b: Band): (c: Color)
    ensures IsRgb(c)
  {
    match b
    case Green => Color(46, 204, 113)
    case LightGreen => Color(129, 199, 132)
    case Orange => Color(255, 152, 0)
    case Yellow => Color(255, 235, 59)
    case Red => Color(231, 76, 60)
  }

  /**
   * The background colour of a grade badge. The five band colours differ,
   * so the colour tells the band.
   */
  function GradeColor(score: int): (c: Color)
    ensures forall b: Band :: BandColor(b) == c <==> InBand(score, b)
  {
    BandColor(GradeBand(score))
  }

  /** No two bands share a colour. */
  lemma BandColorsDistinct(b: Band, other: Band)
    ensures BandColor(b) == BandColor(other) <==> b == other
  {
  }

  /** A higher score never lands in a lower band. */
  lemma GradeBandMonotone(lower: int, higher: int)
    requires lower <= higher
    ensures Rank(GradeBand(lower)) <= Rank(GradeBand(higher))
  {
  }

  /** The boundaries of the ladder, one score on each side of every threshold. */
  lemma GradeBandBoundaries()
    ensures GradeBand(90) == Green && GradeBand(89) == LightGreen
    ensures GradeBand(76) == LightGreen && GradeBand(75) == Orange
    ensures GradeBand(61) == Orange && GradeBand(60) == Yellow
    ensures GradeBand(51) == Yellow && GradeBand(50) == Red
  {
  }

  /** ASCII lower-casing of one character; every other character is kept. */
  function LowerChar(c: char): char
  {
    if 'A' <= c <= 'Z' then (c as int + 32) as char else c
  }

  /** Lower-casing a subject name, character by character. */
  function ToLower(s: string): (r: string)
    ensures |r| == |s|
    ensures forall i :: 0 <= i < |s| ==> r[i] == LowerChar(s[i])
  {
    if s == [] then [] else [LowerChar(s[0])] + ToLower(s[1..])
  }

  /** Two names that differ at most in the case of their letters. */
  predicate EqualsIgnoreCase(a: string, b: string)
  {
    |a| == |b| && forall i :: 0 <= i < |a| ==> LowerChar(a[i]) == LowerChar(b[i])
  }

  /** The subjects the label colour table knows, and everything else. */
  datatype Subject = Mathematics | Science | History | English | Ict | Other

  /** The lower-case name under which the table lists a known subject. */
  function Name(s: Subject): string
    requires s != Other
  {
    match s
    case Mathematics => "mathematics"
    case Science => "science"
    case History => "history"
    case English => "english"
    case Ict => "ict"
  }

  /**
   * The switch of the subject colour, on the lower-cased name: a name is
   * classified as a known subject exactly when it equals that subject's
   * table name up to case, so as Other exactly when it equals none of them.
   */
  function Classify(subject: string): (c: Subject)
    ensures forall s: Subject :: s != Other ==> (c == s <==> EqualsIgnoreCase(subject, Name(s)))
  {
    LowerNameMatches(subject);
    var key := ToLower(subject);
    if key == "mathematics" then Mathematics
    else if key == "science" then Science
    else if key == "history" then History
    else if key == "english" then English
    else if key == "ict" then Ict
    else Other
  }

  /** Lower-casing a name gives a table name exactly when the two agree up to case. */
  lemma LowerNameMatches(subject: string)
    ensures forall s: Subject :: s != Other ==> (ToLower(subject) == Name(s) <==> EqualsIgnoreCase(subject, Name(s)))
  {
    forall s: Subject | s != Other
      ensures ToLower(subject) == Name(s) <==> EqualsIgnoreCase(subject, Name(s))
    {
      ToLowerMatches(subject, Name(s));
    }
  }

  /** The five table names differ from one another. */
  lemma NamesDistinct(s: Subject, t: Subject)
    requires s != Other && t != Other
    ensures Name(s) == Name(t) <==> s == t
  {
  }

  /** The switch picks a known subject exactly when the lower-cased name is its table name. */
  lemma ClassifyByName(subject: string, s: Subject)
    requires s != Other
    ensures Classify(subject) == s <==> ToLower(subject) == Name(s)
  {
    forall t: Subject | t != Other ensures Name(s) == Name(t) <==> s == t {
      NamesDistinct(s, t);
    }
  }

  /** The RGB value of each subject's label, a valid AWT colour. */
  function SubjectTheme(s: Subject): (c: Color)
    ensures IsRgb(c)
  {
    match s
    case Mathematics => Color(0, 123, 255)
    case Science => Color(26, 188, 156)
    case History => Color(241, 196, 15)
    case English => Color(231, 76, 60)
    case Ict => Color(93, 173, 226)
    case Other => Color(120, 144, 156)
  }

  /** No two subjects, the default included, share a label colour. */
  lemma SubjectThemesDistinct(s: Subject, t: Subject)
    ensures SubjectTheme(s) == SubjectTheme(t) <==> s == t
  {
  }

  /**
   * The background colour of a subject's label: the colour of a table
   * subject exactly when the name equals that subject's name up to case, and
   * the default colour exactly when it equals none of the five.
   */
  function SubjectColor(subject: string): (c: Color)
    ensures forall s: Subject :: s != Other ==> (c == SubjectTheme(s) <==> EqualsIgnoreCase(subject, Name(s)))
    ensures c == SubjectTheme(Other) <==> forall s: Subject :: s != Other ==> !EqualsIgnoreCase(subject, Name(s))
  {
    SubjectTheme(Classify(subject))
  }

  /** A name that is all lower case already. */
  predicate IsLower(n: string)
  {
    forall i :: 0 <= i < |n| ==> LowerChar(n[i]) == n[i]
  }

  /** Lower-casing gives a lower-case name exactly when the two agree up to case. */
  lemma ToLowerMatches(s: string, n: string)
    requires IsLower(n)
    ensures ToLower(s) == n <==> EqualsIgnoreCase(s, n)
  {
  }

  /**
   * The subject table is the case-insensitive lookup: a name is classified as
   * a known subject exactly when it equals that subject's name up to case.
   */
  lemma ClassifyIgnoresCase(subject: string, s: Subject)
    requires s != Other
    ensures Classify(subject) == s <==> EqualsIgnoreCase(subject, Name(s))
  {
    ClassifyByName(subject, s);
    ToLowerMatches(subject, Name(s));
  }

  /** Names equal up to case get the same label colour. */
  lemma SubjectColorIgnoresCase(a: string, b: string)
    requires EqualsIgnoreCase(a, b)
    ensures SubjectColor(a) == SubjectColor(b)
  {
  }

  /** Upper-case "MATHEMATICS" takes the mathematics colour; "math" is not a table entry. */
  lemma SubjectColorExamples()
    ensures SubjectColor("MATHEMATICS") == SubjectColor("mathematics") == Color(0, 123, 255)
    ensures SubjectColor("math") == Color(120, 144, 156)
  {
    ClassifyIgnoresCase("MATHEMATICS", Mathematics);
    ClassifyIgnoresCase("mathematics", Mathematics);
    assert !EqualsIgnoreCase("math", "mathematics");
  }
}
