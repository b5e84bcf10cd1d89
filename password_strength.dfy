/*
 * The registration page's password strength indicator: a score of up to
 * five points, each earned by one independent criterion, shown as a bar
 * whose width, colour and label follow the score; plus the rule that
 * enables the submit button.
 */
module PasswordStrength {
  import opened Wrappers
  import opened Ascii

  // ---------------------------------------------------------------------
  // Character classes of the regular expressions, over ASCII
  // ---------------------------------------------------------------------

  /** `[^a-zA-Z\d]`: anything that is not an ASCII letter or digit */
  predicate IsSymbol(c: char) { !IsLowerAscii(c) && !IsUpperAscii(c) && !IsDigitAscii(c) }

  /** `re.test(pwd)` for a single-character class `re`. */
  predicate HasLower(pwd: string) { exists i :: 0 <= i < |pwd| && IsLowerAscii(pwd[i]) }
  predicate HasUpper(pwd: string) { exists i :: 0 <= i < |pwd| && IsUpperAscii(pwd[i]) }
  predicate HasDigit(pwd: string) { exists i :: 0 <= i < |pwd| && IsDigitAscii(pwd[i]) }
  predicate HasSymbol(pwd: string) { exists i :: 0 <= i < |pwd| && IsSymbol(pwd[i]) }

  // ---------------------------------------------------------------------
  // The score
  // ---------------------------------------------------------------------

  /** The five criteria, each worth one point. */
  datatype Criterion = MinLength | LongLength | MixedCase | Digit | Symbol

  const AllCriteria: seq<Criterion> := [MinLength, LongLength, MixedCase, Digit, Symbol]

  /** Whether `pwd` earns the point of criterion `c`. */
  predicate Meets(pwd: string, c: Criterion)
  {
    match c
    case MinLength => |pwd| >= 8
    case LongLength => |pwd| >= 12
    case MixedCase => HasLower(pwd) && HasUpper(pwd)
    case Digit => HasDigit(pwd)
    case Symbol => HasSymbol(pwd)
  }

  /** The point criterion `c` is worth for `pwd`. */
  function Point(pwd: string, c: Criterion): nat
  {
    if Meets(pwd, c) then 1 else 0
  }

  /** How many of the criteria `cs` the password meets. */
  function CountMet(cs: seq<Criterion>, pwd: string): (n: nat)
    ensures n <= |cs|
    ensures n == |cs| <==> forall i :: 0 <= i < |cs| ==> Meets(pwd, cs[i])
    ensures n == 0 <==> forall i :: 0 <= i < |cs| ==> !Meets(pwd, cs[i])
  {
    if cs == [] then 0
    else Point(pwd, cs[0]) + CountMet(cs[1..], pwd)
  }

  /** The strength of a password: the number of criteria it meets. */
  function Score(pwd: string): nat
  {
    CountMet(AllCriteria, pwd)
  }

  /** The score is the sum of the five points. */
  lemma ScoreSum(pwd: string)
    ensures Score(pwd) == Point(pwd, MinLength) + Point(pwd, LongLength) + Point(pwd, MixedCase)
                          + Point(pwd, Digit) + Point(pwd, Symbol)
  {
    var c4: seq<Criterion> := [Symbol];
    var c3: seq<Criterion> := [Digit] + c4;
    var c2: seq<Criterion> := [MixedCase] + c3;
    var c1: seq<Criterion> := [LongLength] + c2;
    assert AllCriteria == [MinLength] + c1;
    assert CountMet(c4, pwd) == Point(pwd, Symbol) + CountMet([], pwd);
    assert CountMet(c3, pwd) == Point(pwd, Digit) + CountMet(c4, pwd) by { assert c3[1..] == c4; }
    assert CountMet(c2, pwd) == Point(pwd, MixedCase) + CountMet(c3, pwd) by { assert c2[1..] == c3; }
    assert CountMet(c1, pwd) == Point(pwd, LongLength) + CountMet(c2, pwd) by { assert c1[1..] == c2; }
    assert CountMet(AllCriteria, pwd) == Point(pwd, MinLength) + CountMet(c1, pwd) by { assert AllCriteria[1..] == c1; }
  }

  /** `getStrength`: a counter raised once for each criterion met. */
  method GetStrength(pwd: string) returns (strength: nat)
    ensures strength == Score(pwd)
  {
    ScoreSum(pwd);
    strength := 0;
    if |pwd| >= 8 { strength := strength + 1; }
    if |pwd| >= 12 { strength := strength + 1; }
    if HasLower(pwd) && HasUpper(pwd) { strength := strength + 1; }
    if HasDigit(pwd) { strength := strength + 1; }
    if HasSymbol(pwd) { strength := strength + 1; }
  }

  /** The score is between 0 and 5; it is 5 exactly when every criterion is
      met and 0 exactly when none is. */
  lemma ScoreBounds(pwd: string)
    ensures 0 <= Score(pwd) <= 5
    ensures Score(pwd) == 5 <==> |pwd| >= 12 && HasLower(pwd) && HasUpper(pwd) && HasDigit(pwd) && HasSymbol(pwd)
    ensures Score(pwd) == 0 <==> |pwd| < 8 && !(HasLower(pwd) && HasUpper(pwd)) && !HasDigit(pwd) && !HasSymbol(pwd)
  {
    ScoreSum(pwd);
  }

  /** A password shorter than 8 earns no length point, so at most 3; one of
      length 12 or more earns both, so at least 2. */
  lemma LengthPoints(pwd: string)
    ensures |pwd| < 8 ==> !Meets(pwd, MinLength) && !Meets(pwd, LongLength) && Score(pwd) <= 3
    ensures |pwd| >= 12 ==> Meets(pwd, MinLength) && Meets(pwd, LongLength) && Score(pwd) >= 2
  {
    ScoreSum(pwd);
  }

  /** The mixed-case point needs an ASCII lower-case letter and an ASCII
      upper-case letter; any character that is not an ASCII letter or digit,
      a non-ASCII letter included, earns the symbol point. */
  lemma CharacterClassPoints(pwd: string)
    ensures Meets(pwd, MixedCase) <==> HasLower(pwd) && HasUpper(pwd)
    ensures forall i :: 0 <= i < |pwd| && pwd[i] as int >= 128 ==> Meets(pwd, Symbol)
    ensures (forall j :: 0 <= j < |pwd| ==> !IsUpperAscii(pwd[j])) ==> !Meets(pwd, MixedCase)
  {
  }

  /** Appending a character keeps every criterion already met. */
  lemma MeetsAppend(pwd: string, c: char, cr: Criterion)
    ensures Meets(pwd, cr) ==> Meets(pwd + [c], cr)
  {
    var q := pwd + [c];
    assert forall i :: 0 <= i < |pwd| ==> q[i] == pwd[i];
  }

  /** Counting criteria is monotone in the criteria met. */
  lemma {:induction false} CountMetMonotone(cs: seq<Criterion>, p: string, q: string)
    requires forall i :: 0 <= i < |cs| ==> Meets(p, cs[i]) ==> Meets(q, cs[i])
    ensures CountMet(cs, p) <= CountMet(cs, q)
    decreases |cs|
  {
    if cs != [] {
      CountMetMonotone(cs[1..], p, q);
    }
  }

  /** Appending a character never lowers the score. */
  lemma ScoreMonotoneAppend(pwd: string, c: char)
    ensures Score(pwd) <= Score(pwd + [c])
  {
    forall i | 0 <= i < |AllCriteria|
      ensures Meets(pwd, AllCriteria[i]) ==> Meets(pwd + [c], AllCriteria[i])
    {
      MeetsAppend(pwd, c, AllCriteria[i]);
    }
    CountMetMonotone(AllCriteria, pwd, pwd + [c]);
  }

  /** Typing more characters never lowers the score. */
  lemma {:induction false} ScoreMonotone(pwd: string, more: string)
    ensures Score(pwd) <= Score(pwd + more)
    decreases |more|
  {
    if more == [] {
      assert pwd + more == pwd;
    } else {
      var last := more[|more| - 1];
      var init := more[..|more| - 1];
      assert pwd + more == (pwd + init) + [last];
      ScoreMonotone(pwd, init);
      ScoreMonotoneAppend(pwd + init, last);
    }
  }

  // ---------------------------------------------------------------------
  // Bands: colour and label
  // ---------------------------------------------------------------------

  /** `getColor` */
  function ColorOf(strength: int): string
  {
    if strength <= 2 then "bg-destructive"
    else if strength <= 3 then "bg-warning"
    else "bg-success"
  }

  /** `getLabel` */
  function LabelOf(strength: int): string
  {
    if strength <= 2 then "Débil"
    else if strength <= 3 then "Media"
    else "Fuerte"
  }

  /** The colour and the label are chosen by the same three bands: 0 to 2 is
      weak and destructive, 3 is medium and warning, 4 and 5 strong and
      success; each colour goes with exactly one label. */
  lemma BandsCoincide(strength: int)
    requires 0 <= strength <= 5
    ensures strength <= 2 <==> LabelOf(strength) == "Débil" && ColorOf(strength) == "bg-destructive"
    ensures strength == 3 <==> LabelOf(strength) == "Media" && ColorOf(strength) == "bg-warning"
    ensures strength >= 4 <==> LabelOf(strength) == "Fuerte" && ColorOf(strength) == "bg-success"
    ensures ColorOf(strength) == "bg-destructive" <==> LabelOf(strength) == "Débil"
    ensures ColorOf(strength) == "bg-warning" <==> LabelOf(strength) == "Media"
    ensures ColorOf(strength) == "bg-success" <==> LabelOf(strength) == "Fuerte"
  {
  }

  /** A password shorter than 8 characters is never rated strong. */
  lemma ShortIsNeverStrong(pwd: string)
    requires |pwd| < 8
    ensures LabelOf(Score(pwd)) != "Fuerte"
  {
    LengthPoints(pwd);
  }

  // ---------------------------------------------------------------------
  // The indicator
  // ---------------------------------------------------------------------

  /** What the indicator shows: the bar's width in percent, its colour and
      the label under it. */
  datatype Indicator = Indicator(widthPercent: real, color: string, labelText: string)

  /** `PasswordStrengthIndicator`: nothing for an empty password, otherwise
      the bar for the password's score. */
  function IndicatorOf(password: string): Option<Indicator>
  {
    var strength := Score(password);
    var percentage := (strength as real / 5.0) * 100.0;
    if password == "" then None
    else Some(Indicator(percentage, ColorOf(strength), LabelOf(strength)))
  }

  /** The indicator appears exactly for non-empty passwords; its bar is 20%
      per point, so between 0 and 100, full exactly at score 5; its colour
      and label follow the password's score. */
  lemma IndicatorShape(password: string)
    ensures IndicatorOf(password).None? <==> password == ""
    ensures IndicatorOf(password).Some? ==>
      var ind := IndicatorOf(password).value;
      && ind.widthPercent == 20.0 * Score(password) as real
      && 0.0 <= ind.widthPercent <= 100.0
      && (ind.widthPercent == 100.0 <==> Score(password) == 5)
      && ind.color == ColorOf(Score(password))
      && ind.labelText == LabelOf(Score(password))
  {
  }

  /** The checklist under the field: at least 8 characters, mixed case, a
      digit. */
  function Checklist(password: string): (ticks: seq<bool>)
  {
    [|password| >= 8, HasLower(password) && HasUpper(password), HasDigit(password)]
  }

  /** Each ticked item of the checklist is a criterion met, so a password
      with every item ticked scores at least 3 and is never rated weak. */
  lemma ChecklistPoints(password: string)
    ensures |Checklist(password)| == 3
    ensures Checklist(password)[0] <==> Meets(password, MinLength)
    ensures Checklist(password)[1] <==> Meets(password, MixedCase)
    ensures Checklist(password)[2] <==> Meets(password, Digit)
    ensures (forall i :: 0 <= i < 3 ==> Checklist(password)[i]) ==>
      Score(password) >= 3 && LabelOf(Score(password)) != "Débil"
  {
    ScoreSum(password);
  }

  /** Some fixed passwords and their ratings. */
  lemma Examples()
    ensures Score("abc") == 0 && LabelOf(Score("abc")) == "Débil"
    ensures Score("Abcdefg1!") == 4 && LabelOf(Score("Abcdefg1!")) == "Fuerte"
  {
    var p := "Abcdefg1!";
    assert IsUpperAscii(p[0]) && IsLowerAscii(p[1]) && IsDigitAscii(p[7]) && IsSymbol(p[8]);
    var q := "abc";
    assert forall i :: 0 <= i < |q| ==> IsLowerAscii(q[i]);
  }

  // ---------------------------------------------------------------------
  // The submit button
  // ---------------------------------------------------------------------

  /** `disabled={isPending || !acceptedTerms}`: submitting is possible
      exactly when no submission is pending and the terms are accepted. */
  function SubmitDisabled(isPending: bool, acceptedTerms: bool): (disabled: bool)
    ensures !disabled <==> !isPending && acceptedTerms
    ensures isPending ==> disabled
  {
    isPending || !acceptedTerms
  }
}
