/**
 The section-status classifier of the analysis service: a pure function of a
 section's title, its description and the overall match score.
 */
module Classifier {
  import opened JsString
  import opened Report

  const SkillsSuccessScore := 80
  const SkillsWarningScore := 60

  /** Words that make a generic section a success, and words that make it an error. */
  const SuccessWords: seq<string> := ["strong", "excellent", "perfect", "great"]
  const ErrorWords: seq<string> := ["lacking", "missing", "weak", "poor"]

  /** Phrases that make the "Missing Keywords" section a success. */
  const NothingMissingWords: seq<string> := ["no missing", "none"]

  /**
   JavaScript truthiness of a description: the empty string and a missing
   value are falsy; every array, even an empty one, is truthy.
   */
  predicate Truthy(d: Description) {
    match d
    case Text(s) => s != ""
    case List(_) => true
    case Absent => false
  }

  /** `String(content)` for a truthy description: arrays are joined with commas. */
  function Stringify(d: Description): string
    requires Truthy(d)
  {
    match d
    case Text(s) => s
    case List(items) => Join(items, ",")
  }

  /** Some word of `words` occurs in `text`. */
  predicate ContainsAny(text: string, words: seq<string>) {
    |words| > 0 && (Contains(text, words[0]) || ContainsAny(text, words[1..]))
  }

  /** `determineStatus(title, content, matchScore)`. */
  function DetermineStatus(title: string, content: Description, matchScore: int): (r: Status)
    ensures !Truthy(content) ==> r == Error
    ensures Truthy(content) && title == SkillsAnalysis ==>
      && (r == Success <==> matchScore >= SkillsSuccessScore)
      && (r == Error <==> matchScore < SkillsWarningScore)
    ensures Truthy(content) && title == MissingKeywords ==>
      && r != Error
      && (r == Success <==> ContainsAny(Lower(Stringify(content)), NothingMissingWords))
    ensures Truthy(content) && title == Recommendations ==> r == Warning
    ensures Truthy(content) && title !in {SkillsAnalysis, MissingKeywords, Recommendations} ==>
      && (r == Success <==> ContainsAny(Lower(Stringify(content)), SuccessWords))
      && (r == Error <==>
            !ContainsAny(Lower(Stringify(content)), SuccessWords)
            && ContainsAny(Lower(Stringify(content)), ErrorWords))
  {
    if !Truthy(content) then Error
    else
      var text := Lower(Stringify(content));
      if title == SkillsAnalysis then
        if matchScore >= SkillsSuccessScore then Success
        else if matchScore >= SkillsWarningScore then Warning
        else Error
      else if title == MissingKeywords then
        if ContainsAny(text, NothingMissingWords) then Success else Warning
      else if title == Recommendations then
        Warning
      else if ContainsAny(text, SuccessWords) then
        Success
      else if ContainsAny(text, ErrorWords) then
        Error
      else
        Warning
  }

  /** For "Skills Analysis" only the score matters: any two truthy descriptions classify alike. */
  lemma SkillsIgnoresContent(c1: Description, c2: Description, matchScore: int)
    requires Truthy(c1) && Truthy(c2)
    ensures DetermineStatus(SkillsAnalysis, c1, matchScore) == DetermineStatus(SkillsAnalysis, c2, matchScore)
  {
  }

  /** Ranking of statuses, worst first. */
  function Rank(s: Status): nat {
    match s
    case Error => 0
    case Warning => 1
    case Success => 2
  }

  /** For "Skills Analysis" a higher score never gives a worse status. */
  lemma SkillsMonotone(content: Description, low: int, high: int)
    requires low <= high
    ensures Rank(DetermineStatus(SkillsAnalysis, content, low))
         <= Rank(DetermineStatus(SkillsAnalysis, content, high))
  {
  }

  /** Every title other than "Skills Analysis" ignores the score. */
  lemma OtherTitlesIgnoreScore(title: string, content: Description, s1: int, s2: int)
    requires title != SkillsAnalysis
    ensures DetermineStatus(title, content, s1) == DetermineStatus(title, content, s2)
  {
  }

  /** A description that differs only in letter case classifies alike. */
  lemma CaseInsensitive(title: string, s1: string, s2: string, matchScore: int)
    requires Lower(s1) == Lower(s2)
    ensures DetermineStatus(title, Text(s1), matchScore) == DetermineStatus(title, Text(s2), matchScore)
  {
  }

  /** A generic section mentioning both a success word and an error word is a success. */
  lemma SuccessWordsTakePrecedence(title: string, text: string, matchScore: int)
    requires title !in {SkillsAnalysis, MissingKeywords, Recommendations}
    requires ContainsAny(Lower(text), SuccessWords) && ContainsAny(Lower(text), ErrorWords)
    ensures DetermineStatus(title, Text(text), matchScore) == Success
  {
    MentionImpliesNonEmpty(Lower(text), SuccessWords);
  }

  /** Text that mentions one of several non-empty words is itself non-empty. */
  lemma {:induction false} MentionImpliesNonEmpty(text: string, words: seq<string>)
    requires forall k :: 0 <= k < |words| ==> words[k] != ""
    requires ContainsAny(text, words)
    ensures text != ""
  {
    if !Contains(text, words[0]) {
      MentionImpliesNonEmpty(text, words[1..]);
    }
  }

  /** An empty keyword list is truthy, so it is never an error by emptiness; it is simply text-free. */
  lemma EmptyListIsNotFalsy(title: string, matchScore: int)
    ensures DetermineStatus(title, List([]), matchScore) == DetermineStatus(title, Text(""), matchScore)
       <==> title == SkillsAnalysis && matchScore < SkillsWarningScore
  {
  }

  /** A keyword list classifies like the comma-joined text it stringifies to, unless that text is empty. */
  lemma ListClassifiesAsJoinedText(title: string, items: seq<string>, matchScore: int)
    requires Join(items, ",") != ""
    ensures DetermineStatus(title, List(items), matchScore)
         == DetermineStatus(title, Text(Join(items, ",")), matchScore)
  {
  }
}
