/**
 * getUnitForExercise of src/utils/units.js: the exercise name, lower-cased,
 * is tested against four keyword lists in turn, and the first list with a
 * keyword inside the name decides the unit label.
 */
module Units {
  import opened JsString

  /** The five labels: 'km', 'km/h', '秒', 'weight' and 'weight_or_reps'. */
  datatype Unit = Km | KmPerHour | Seconds | Weight | WeightOrReps

  function Label(u: Unit): string {
    match u
    case Km => "km"
    case KmPerHour => "km/h"
    case Seconds => "秒"
    case Weight => "weight"
    case WeightOrReps => "weight_or_reps"
  }

  /** Different units never share a label, so the label text identifies the unit. */
  lemma LabelsDistinct(u: Unit, v: Unit)
    requires u != v
    ensures Label(u) != Label(v)
  {
  }

  /** Running and walking. */
  const DistanceKeywords: seq<string> := ["跑步", "慢跑", "快走"]

  /** Cycling. */
  const SpeedKeywords: seq<string> := ["腳踏車", "單車", "飛輪"]

  /** Static holds. */
  const HoldKeywords: seq<string> := ["平板", "plank", "支撐", "靜止"]

  /** Strength training; note that 舉 alone already covers 硬舉 and 推舉. */
  const StrengthKeywords: seq<string> :=
    ["深蹲", "硬舉", "臥推", "划船", "肩推", "彎舉", "三頭", "二頭", "推舉",
     "飛鳥", "下拉", "腿推", "舉", "press", "squat", "deadlift", "row", "curl"]

  /** name.includes(k0) || name.includes(k1) || ..., tested left to right. */
  predicate MentionsAny(name: string, keywords: seq<string>)
    decreases |keywords|
  {
    |keywords| > 0 && (Contains(name, keywords[0]) || MentionsAny(name, keywords[1..]))
  }

  lemma {:induction false} MentionsAnyMeansSomeKeyword(name: string, keywords: seq<string>)
    ensures MentionsAny(name, keywords) <==> exists i :: 0 <= i < |keywords| && Contains(name, keywords[i])
  {
    if |keywords| > 0 {
      MentionsAnyMeansSomeKeyword(name, keywords[1..]);
      if Contains(name, keywords[0]) {
        assert 0 < |keywords| && Contains(name, keywords[0]);
      }
      if exists i :: 0 <= i < |keywords| && Contains(name, keywords[i]) {
        var i :| 0 <= i < |keywords| && Contains(name, keywords[i]);
        if i > 0 {
          assert keywords[1..][i - 1] == keywords[i];
        }
      }
    }
  }

  /** One keyword found is enough. */
  lemma {:induction false} MentionsKeyword(name: string, keywords: seq<string>, i: nat)
    requires i < |keywords| && Contains(name, keywords[i])
    ensures MentionsAny(name, keywords)
    decreases i
  {
    if i > 0 {
      assert keywords[1..][i - 1] == keywords[i];
      MentionsKeyword(name, keywords[1..], i - 1);
    }
  }

  /** getUnitForExercise. */
  function UnitFor(exerciseName: string): Unit {
    var name := ToLower(exerciseName);
    if MentionsAny(name, DistanceKeywords) then Km
    else if MentionsAny(name, SpeedKeywords) then KmPerHour
    else if MentionsAny(name, HoldKeywords) then Seconds
    else if MentionsAny(name, StrengthKeywords) then Weight
    else WeightOrReps
  }

  // ------------------------------------------- the rule table, stated apart

  /** One rule of the classifier: any of these keywords gives this unit. */
  datatype Rule = Rule(keywords: seq<string>, unit: Unit)

  const Rules: seq<Rule> := [
    Rule(DistanceKeywords, Km),
    Rule(SpeedKeywords, KmPerHour),
    Rule(HoldKeywords, Seconds),
    Rule(StrengthKeywords, Weight)
  ]

  predicate Matches(rule: Rule, name: string) {
    exists i :: 0 <= i < |rule.keywords| && Contains(name, rule.keywords[i])
  }

  /** The unit of the first rule that matches, or the fallback when none does. */
  function FirstMatch(rules: seq<Rule>, name: string, fallback: Unit): (u: Unit)
    ensures (exists i :: 0 <= i < |rules| && Matches(rules[i], name)
               && (forall j :: 0 <= j < i ==> !Matches(rules[j], name)) && u == rules[i].unit)
         || ((forall i :: 0 <= i < |rules| ==> !Matches(rules[i], name)) && u == fallback)
    decreases |rules|
  {
    if rules == [] then fallback
    else if Matches(rules[0], name) then
      rules[0].unit
    else
      var u := FirstMatch(rules[1..], name, fallback);
      assert forall j :: 1 <= j < |rules| ==> rules[j] == rules[1..][j - 1];
      u
  }

  /**
   * The classifier is the first-match rule table applied to the lower-cased
   * name, with 'weight_or_reps' as the default: earlier rules win, and every
   * name gets exactly one of the five units.
   */
  lemma UnitForIsFirstMatch(exerciseName: string)
    ensures UnitFor(exerciseName) == FirstMatch(Rules, ToLower(exerciseName), WeightOrReps)
  {
    var name := ToLower(exerciseName);
    var r1, r2, r3 := Rules[1..], Rules[2..], Rules[3..];
    assert r1[1..] == r2 && r2[1..] == r3 && r3[1..] == [];
    RuleMatches(Rules[0], name);
    RuleMatches(Rules[1], name);
    RuleMatches(Rules[2], name);
    RuleMatches(Rules[3], name);
    FirstMatchStep(Rules, name, WeightOrReps);
    FirstMatchStep(r1, name, WeightOrReps);
    FirstMatchStep(r2, name, WeightOrReps);
    FirstMatchStep(r3, name, WeightOrReps);
  }

  lemma RuleMatches(rule: Rule, name: string)
    ensures Matches(rule, name) <==> MentionsAny(name, rule.keywords)
  {
    MentionsAnyMeansSomeKeyword(name, rule.keywords);
  }

  lemma FirstMatchStep(rules: seq<Rule>, name: string, fallback: Unit)
    requires rules != []
    ensures FirstMatch(rules, name, fallback)
         == if Matches(rules[0], name) then rules[0].unit else FirstMatch(rules[1..], name, fallback)
  {
  }

  // ----------------------------------------------------------- letter case

  function ToUpperAsciiChar(c: char): char {
    if 'a' <= c <= 'z' then (c as int - 32) as char else c
  }

  /** Upper-cases the ASCII letters of s. */
  function ToUpperAscii(s: string): (r: string)
    ensures |r| == |s|
    ensures forall i :: 0 <= i < |s| ==> r[i] == ToUpperAsciiChar(s[i])
  {
    seq(|s|, i requires 0 <= i < |s| => ToUpperAsciiChar(s[i]))
  }

  /** The name is lower-cased first, so writing its ASCII letters in capitals changes nothing. */
  lemma UnitForIgnoresAsciiCase(exerciseName: string)
    ensures UnitFor(ToUpperAscii(exerciseName)) == UnitFor(exerciseName)
  {
    var up := ToUpperAscii(exerciseName);
    assert ToLower(up) == ToLower(exerciseName) by {
      forall i | 0 <= i < |exerciseName| ensures ToLower(up)[i] == ToLower(exerciseName)[i] {
        var c := exerciseName[i];
        assert ToLowerChar(ToUpperAsciiChar(c)) == ToLowerChar(c);
      }
    }
  }

  // ------------------------------------------------------------ rule order

  /** Any name with a cycling keyword and no running keyword is measured in km/h. */
  lemma CyclingGivesSpeed(exerciseName: string, k: nat)
    requires k < |SpeedKeywords| && Contains(ToLower(exerciseName), SpeedKeywords[k])
    requires !MentionsAny(ToLower(exerciseName), DistanceKeywords)
    ensures UnitFor(exerciseName) == KmPerHour
  {
    MentionsAnyMeansSomeKeyword(ToLower(exerciseName), SpeedKeywords);
  }

  /** 舉 on its own is a strength keyword: a name holding it and no earlier keyword is 'weight'. */
  lemma LiftCharacterGivesWeight(exerciseName: string)
    requires '舉' in ToLower(exerciseName)
    requires !MentionsAny(ToLower(exerciseName), DistanceKeywords)
    requires !MentionsAny(ToLower(exerciseName), SpeedKeywords)
    requires !MentionsAny(ToLower(exerciseName), HoldKeywords)
    ensures UnitFor(exerciseName) == Weight
  {
    var name := ToLower(exerciseName);
    ContainsChar(name, '舉');
    assert StrengthKeywords[12] == ['舉'];
    MentionsKeyword(name, StrengthKeywords, 12);
  }

  /** A running keyword wins over every later rule, whatever else the name mentions. */
  lemma RunningWins(exerciseName: string, k: nat)
    requires k < |DistanceKeywords| && Contains(ToLower(exerciseName), DistanceKeywords[k])
    ensures UnitFor(exerciseName) == Km
  {
    MentionsAnyMeansSomeKeyword(ToLower(exerciseName), DistanceKeywords);
  }

  /** A name with no keyword at all falls through to 'weight_or_reps'. */
  lemma NoKeywordGivesDefault(exerciseName: string)
    requires forall r :: r in Rules ==> !Matches(r, ToLower(exerciseName))
    ensures UnitFor(exerciseName) == WeightOrReps
  {
    UnitForIsFirstMatch(exerciseName);
    assert forall i :: 0 <= i < |Rules| ==> Rules[i] in Rules;
  }

  // -------------------------------------------------------------- examples

  /** A list none of whose keywords can occur: each one starts with a character the name lacks. */
  lemma {:induction false} LacksKeywords(name: string, keywords: seq<string>)
    requires forall i :: 0 <= i < |keywords| ==> keywords[i] != [] && keywords[i][0] !in name
    ensures !MentionsAny(name, keywords)
  {
    if |keywords| > 0 {
      if Contains(name, keywords[0]) {
        ContainsHasChars(name, keywords[0], 0);
      }
      LacksKeywords(name, keywords[1..]);
    }
  }

  lemma TreadmillIsDistance()
    ensures UnitFor("跑步機") == Km
  {
    assert ToLower("跑步機") == "跑步機";
    ContainsAt("跑步機", "跑步", 0);
    RunningWins("跑步機", 0);
  }

  lemma PlankIsHeld()
    ensures UnitFor("Plank") == Seconds
  {
    PlankLowered();
    PlankNotDistance();
    PlankNotSpeed();
    PlankHasHoldKeyword();
  }

  lemma PlankLowered()
    ensures ToLower("Plank") == "plank"
  {
  }

  lemma PlankNotDistance() ensures !MentionsAny("plank", DistanceKeywords) {
    LacksKeywords("plank", DistanceKeywords);
  }

  lemma PlankNotSpeed() ensures !MentionsAny("plank", SpeedKeywords) {
    LacksKeywords("plank", SpeedKeywords);
  }

  lemma PlankHasHoldKeyword() ensures MentionsAny("plank", HoldKeywords) {
    assert HoldKeywords[1] == "plank";
    ContainsAt("plank", "plank", 0);
    MentionsKeyword("plank", HoldKeywords, 1);
  }

  lemma BackSquatIsWeight()
    ensures UnitFor("Back Squat") == Weight
  {
    BackSquatLowered();
    BackSquatHasNoEarlierKeyword();
    BackSquatHasStrengthKeyword();
  }

  lemma BackSquatLowered()
    ensures ToLower("Back Squat") == "back squat"
  {
  }

  lemma BackSquatHasNoEarlierKeyword()
    ensures !MentionsAny("back squat", DistanceKeywords)
    ensures !MentionsAny("back squat", SpeedKeywords)
    ensures !MentionsAny("back squat", HoldKeywords)
  {
    BackSquatNotDistance();
    BackSquatNotSpeed();
    BackSquatNotHold();
  }

  lemma BackSquatNotDistance() ensures !MentionsAny("back squat", DistanceKeywords) {
    LacksKeywords("back squat", DistanceKeywords);
  }

  lemma BackSquatNotSpeed() ensures !MentionsAny("back squat", SpeedKeywords) {
    LacksKeywords("back squat", SpeedKeywords);
  }

  lemma BackSquatNotHold() ensures !MentionsAny("back squat", HoldKeywords) {
    LacksKeywords("back squat", HoldKeywords);
  }

  lemma BackSquatHasStrengthKeyword()
    ensures MentionsAny("back squat", StrengthKeywords)
  {
    ContainsAt("back squat", "squat", 5);
    assert StrengthKeywords[14] == "squat";
    MentionsKeyword("back squat", StrengthKeywords, 14);
  }

  lemma PushUpIsWeightOrReps()
    ensures UnitFor("伏地挺身") == WeightOrReps
  {
    assert ToLower("伏地挺身") == "伏地挺身";
    PushUpHasNoKeyword();
  }

  lemma PushUpHasNoKeyword()
    ensures !MentionsAny("伏地挺身", DistanceKeywords)
    ensures !MentionsAny("伏地挺身", SpeedKeywords)
    ensures !MentionsAny("伏地挺身", HoldKeywords)
    ensures !MentionsAny("伏地挺身", StrengthKeywords)
  {
    PushUpNotDistance();
    PushUpNotSpeed();
    PushUpNotHold();
    PushUpNotStrength();
  }

  lemma PushUpNotDistance() ensures !MentionsAny("伏地挺身", DistanceKeywords) {
    LacksKeywords("伏地挺身", DistanceKeywords);
  }

  lemma PushUpNotSpeed() ensures !MentionsAny("伏地挺身", SpeedKeywords) {
    LacksKeywords("伏地挺身", SpeedKeywords);
  }

  lemma PushUpNotHold() ensures !MentionsAny("伏地挺身", HoldKeywords) {
    LacksKeywords("伏地挺身", HoldKeywords);
  }

  lemma PushUpNotStrength() ensures !MentionsAny("伏地挺身", StrengthKeywords) {
    LacksKeywords("伏地挺身", StrengthKeywords);
  }
}
