/**
 * The string handling the controller relies on: Java's rendering of an `int`
 * in string concatenation, the blob name `id + "-" + name` built from it, and
 * `String.equalsIgnoreCase` as used to pick the rank table.
 */
module Text {
  import opened Outcomes

  predicate IsDigit(c: char) {
    '0' <= c <= '9'
  }

  predicate AllDigits(s: string) {
    forall i :: 0 <= i < |s| ==> IsDigit(s[i])
  }

  function DigitChar(d: nat): (c: char)
    requires d < 10
    ensures IsDigit(c)
    ensures c as int - '0' as int == d
  {
    (d + '0' as int) as char
  }

  /** Decimal rendering of a non-negative id, as `lecturerId + "-"` renders it:
      digits only, at least one of them, and no leading zero. */
  function Decimal(n: nat): (s: string)
    ensures 1 <= |s|
    ensures AllDigits(s)
    ensures n > 0 ==> s[0] != '0'
    decreases n
  {
    if n < 10 then [DigitChar(n)] else Decimal(n / 10) + [DigitChar(n % 10)]
  }

  /** The number a string of decimal digits denotes. */
  function DigitsValue(s: string): nat
    requires AllDigits(s)
  {
    if |s| == 0 then 0
    else DigitsValue(s[..|s| - 1]) * 10 + (s[|s| - 1] as int - '0' as int)
  }

  /** Reading back the digits of `Decimal(n)` gives `n`. */
  lemma {:induction false} DecimalRoundTrip(n: nat)
    ensures DigitsValue(Decimal(n)) == n
    decreases n
  {
    var s := Decimal(n);
    if n >= 10 {
      assert s[..|s| - 1] == Decimal(n / 10);
      DecimalRoundTrip(n / 10);
    } else {
      assert s[..|s| - 1] == [];
    }
  }

  /** Position of the first '-' in `s`, or `|s|` when there is none. */
  function FirstDash(s: string): (k: nat)
    ensures k <= |s|
    ensures forall i :: 0 <= i < k ==> s[i] != '-'
    ensures k < |s| ==> s[k] == '-'
  {
    if |s| == 0 || s[0] == '-' then 0 else 1 + FirstDash(s[1..])
  }

  /** The object-store name of a lecturer's picture: the id, a dash, the name. */
  function PictureName(id: nat, name: string): string {
    Decimal(id) + "-" + name
  }

  /** Splits a picture name at its first dash back into the id and the name. */
  function ParsePictureName(s: string): Option<(nat, string)> {
    var k := FirstDash(s);
    if 0 < k < |s| && AllDigits(s[..k]) then Some((DigitsValue(s[..k]), s[k + 1..]))
    else None
  }

  /** The picture name determines the id and the name it was built from. */
  lemma {:induction false} PictureNameRoundTrip(id: nat, name: string)
    ensures ParsePictureName(PictureName(id, name)) == Some((id, name))
  {
    var d := Decimal(id);
    var s := PictureName(id, name);
    assert s[..|d|] == d;
    assert s[|d|] == '-';
    assert s[|d| + 1..] == name;
    assert forall i :: 0 <= i < |d| ==> s[i] == d[i] && s[i] != '-';
    assert FirstDash(s) == |d|;
    DecimalRoundTrip(id);
  }

  /** Two lecturers with different ids never share a picture blob. */
  lemma PictureNameInjective(id1: nat, name1: string, id2: nat, name2: string)
    requires PictureName(id1, name1) == PictureName(id2, name2)
    ensures id1 == id2 && name1 == name2
  {
    PictureNameRoundTrip(id1, name1);
    PictureNameRoundTrip(id2, name2);
  }

  /** Java's `Character.toUpperCase` on every character whose upper case is
      ASCII: the ASCII letters, dotless i and long s. Other characters are
      left as they are. */
  function UpperCase(c: char): char {
    if 'a' <= c <= 'z' then (c as int - 32) as char
    else if c == '\U{0131}' then 'I'
    else if c == '\U{017F}' then 'S'
    else c
  }

  /** Java's `Character.toLowerCase` on every character whose lower case is
      ASCII: the ASCII letters, dotted capital I and the Kelvin sign. */
  function LowerCase(c: char): char {
    if 'A' <= c <= 'Z' then (c as int + 32) as char
    else if c == '\U{0130}' then 'i'
    else if c == '\U{212A}' then 'k'
    else c
  }

  /** The per-character test of `String.regionMatches(true, ...)`, which
      `equalsIgnoreCase` uses: equal, or equal upper cases, or equal lower
      cases of the upper cases. */
  predicate CharsEqualIgnoreCase(a: char, b: char) {
    a == b || UpperCase(a) == UpperCase(b) || LowerCase(UpperCase(a)) == LowerCase(UpperCase(b))
  }

  /** `String.equalsIgnoreCase` on two non-null strings: equal strings
      match, and only strings of the same length can. */
  predicate EqualsIgnoreCase(s: string, t: string): (r: bool)
    ensures s == t ==> r
    ensures r ==> |s| == |t|
  {
    |s| == |t| && forall i :: 0 <= i < |s| ==> CharsEqualIgnoreCase(s[i], t[i])
  }

  /** Like Java's, the test does not depend on the order of its arguments. */
  lemma EqualsIgnoreCaseSymmetric(s: string, t: string)
    ensures EqualsIgnoreCase(s, t) <==> EqualsIgnoreCase(t, s)
  {
  }

  const FullTimeLabel: string := "full-time"
  const PartTimeLabel: string := "part-time"

  /** The test that sends a new lecturer to the full-time rank table. */
  predicate IsFullTime(lecturerType: string): (r: bool)
    ensures lecturerType == FullTimeLabel ==> r
    ensures r ==> |lecturerType| == |FullTimeLabel|
    ensures lecturerType == PartTimeLabel ==> !r
  {
    assert lecturerType == PartTimeLabel ==> !CharsEqualIgnoreCase(lecturerType[0], FullTimeLabel[0]);
    EqualsIgnoreCase(lecturerType, FullTimeLabel)
  }

  /** A reference folding: the ASCII lower-case letter (or the character
      itself) that a character is case-insensitively equal to. */
  function FoldCase(c: char): char {
    if 'A' <= c <= 'Z' then (c as int + 32) as char
    else if c == '\U{0131}' || c == '\U{0130}' then 'i'
    else if c == '\U{017F}' then 's'
    else if c == '\U{212A}' then 'k'
    else c
  }

  /** Against an ASCII character that is not an upper-case letter, Java's
      case-insensitive test is exactly "folds to that character". */
  lemma CharsEqualIgnoreCaseIsFolding(c: char, d: char)
    requires d as int < 128 && !('A' <= d <= 'Z')
    ensures CharsEqualIgnoreCase(c, d) <==> FoldCase(c) == d
  {
  }

  /** A type string selects the full-time table exactly when it has nine
      characters that fold, one by one, to "full-time". */
  lemma IsFullTimeIffFolds(lecturerType: string)
    ensures IsFullTime(lecturerType) <==>
      |lecturerType| == 9 && forall i :: 0 <= i < 9 ==> FoldCase(lecturerType[i]) == FullTimeLabel[i]
  {
    if |lecturerType| == 9 {
      forall i | 0 <= i < 9
        ensures CharsEqualIgnoreCase(lecturerType[i], FullTimeLabel[i]) <==> FoldCase(lecturerType[i]) == FullTimeLabel[i]
      {
        CharsEqualIgnoreCaseIsFolding(lecturerType[i], FullTimeLabel[i]);
      }
    }
  }

  /** Type strings that pick the full-time table. */
  lemma FullTimeExamples()
    ensures IsFullTime("full-time") && IsFullTime("FULL-TIME") && IsFullTime("Full-Time")
    ensures IsFullTime("full-t\U{0131}me")
  {
    FoldsToFullTime("FULL-TIME");
    FoldsToFullTime("Full-Time");
    FoldsToFullTime("full-t\U{0131}me");
  }

  /** A nine-character type that folds to "full-time" picks the full-time
      table. */
  lemma FoldsToFullTime(s: string)
    requires |s| == 9
    requires FoldCase(s[0]) == 'f' && FoldCase(s[1]) == 'u' && FoldCase(s[2]) == 'l'
    requires FoldCase(s[3]) == 'l' && FoldCase(s[4]) == '-' && FoldCase(s[5]) == 't'
    requires FoldCase(s[6]) == 'i' && FoldCase(s[7]) == 'm' && FoldCase(s[8]) == 'e'
    ensures IsFullTime(s)
  {
    IsFullTimeIffFolds(s);
    assert forall i :: 0 <= i < 9 ==> FoldCase(s[i]) == FullTimeLabel[i];
  }

  /** Type strings that pick the part-time table. */
  lemma PartTimeExamples()
    ensures !IsFullTime("part-time") && !IsFullTime("fulltime") && !IsFullTime("full time")
  {
    assert !CharsEqualIgnoreCase("full time"[4], FullTimeLabel[4]);
  }
}
