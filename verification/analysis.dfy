/**
 Normalisation of the language model's parsed answer into a match report:
 the "Missing Keywords" description is repaired into a list of tokens, then
 every section is given its derived status.
 */
module Analysis {
  import opened Wrappers
  import opened JsString
  import opened Report
  import opened Classifier

  /** A section as the model returns it, before a status is attached. */
  datatype RawSection = RawSection(title: string, description: Description)

  /** The parsed JSON answer of the model. */
  datatype ParsedAnswer = ParsedAnswer(matchScore: int, sections: seq<RawSection>)

  /** The characters of the class `[,\s]`. */
  predicate IsSeparator(c: char) {
    c == ',' || IsJsSpace(c)
  }

  /** A keyword token: non-empty, and free of commas and white space. */
  predicate IsCleanToken(t: string) {
    t != [] && forall k :: 0 <= k < |t| ==> !IsSeparator(t[k])
  }

  predicate AllClean(ts: seq<string>) {
    forall j :: 0 <= j < |ts| ==> IsCleanToken(ts[j])
  }

  /** Index of the first separator of `s`, or `|s|` when there is none. */
  function FirstSeparator(s: string): (i: nat)
    ensures i <= |s|
    ensures forall k :: 0 <= k < i ==> !IsSeparator(s[k])
    ensures i < |s| ==> IsSeparator(s[i])
  {
    if |s| == 0 || IsSeparator(s[0]) then 0 else 1 + FirstSeparator(s[1..])
  }

  /** End of the longest run of separators that starts at `i`. */
  function RunEnd(s: string, i: nat): (j: nat)
    requires i <= |s|
    ensures i <= j <= |s|
    ensures forall k :: i <= k < j ==> IsSeparator(s[k])
    ensures j < |s| ==> !IsSeparator(s[j])
    decreases |s| - i
  {
    if i < |s| && IsSeparator(s[i]) then RunEnd(s, i + 1) else i
  }

  /**
   `s.split(/[,\s]+/)`: the pieces between maximal runs of separators, with an
   empty first piece when `s` starts with a separator and an empty last piece
   when it ends with one; the empty string splits into one empty piece.
   */
  function Split(s: string): (parts: seq<string>)
    ensures |parts| >= 1
    decreases |s|
  {
    var i := FirstSeparator(s);
    if i == |s| then [s] else [s[..i]] + Split(s[RunEnd(s, i)..])
  }

  /** `.filter(keyword => keyword.length > 0)` */
  function DropEmpty(parts: seq<string>): (r: seq<string>)
    ensures |r| <= |parts|
    ensures forall j :: 0 <= j < |r| ==> r[j] != []
  {
    if |parts| == 0 then []
    else if parts[0] == [] then DropEmpty(parts[1..])
    else [parts[0]] + DropEmpty(parts[1..])
  }

  /** `.map(keyword => keyword.trim())` */
  function TrimEach(parts: seq<string>): (r: seq<string>)
    ensures |r| == |parts|
  {
    seq(|parts|, j requires 0 <= j < |parts| => Trim(parts[j]))
  }

  /** The keyword list a delimited string is repaired into. */
  function Tokens(s: string): seq<string> {
    TrimEach(DropEmpty(Split(s)))
  }

  /** No piece of a split contains a separator. */
  lemma {:induction false} SplitPiecesHaveNoSeparator(s: string)
    ensures forall j, k :: 0 <= j < |Split(s)| && 0 <= k < |Split(s)[j]| ==> !IsSeparator(Split(s)[j][k])
    decreases |s|
  {
    var i := FirstSeparator(s);
    if i < |s| {
      SplitPiecesHaveNoSeparator(s[RunEnd(s, i)..]);
    }
  }

  lemma {:induction false} DropEmptyKeepsClean(parts: seq<string>)
    requires forall j, k :: 0 <= j < |parts| && 0 <= k < |parts[j]| ==> !IsSeparator(parts[j][k])
    ensures AllClean(DropEmpty(parts))
  {
    if |parts| > 0 {
      DropEmptyKeepsClean(parts[1..]);
    }
  }

  /**
   Every repaired keyword is non-empty and holds no comma or white space, so
   the trimming step changes nothing.
   */
  lemma TokensAreClean(s: string)
    ensures AllClean(Tokens(s))
    ensures Tokens(s) == DropEmpty(Split(s))
  {
    SplitPiecesHaveNoSeparator(s);
    var kept := DropEmpty(Split(s));
    DropEmptyKeepsClean(Split(s));
    forall j | 0 <= j < |kept| ensures Trim(kept[j]) == kept[j] {
      TrimNoSpace(kept[j]);
    }
  }

  /** `s` with every separator removed. */
  function Strip(s: string): (r: string)
    ensures |r| <= |s|
  {
    if |s| == 0 then ""
    else if IsSeparator(s[0]) then Strip(s[1..])
    else [s[0]] + Strip(s[1..])
  }

  /** The concatenation of a list of strings. */
  function Concat(parts: seq<string>): string {
    if |parts| == 0 then "" else parts[0] + Concat(parts[1..])
  }

  lemma {:induction false} StripAppend(a: string, b: string)
    ensures Strip(a + b) == Strip(a) + Strip(b)
  {
    if |a| > 0 {
      assert (a + b)[1..] == a[1..] + b;
      StripAppend(a[1..], b);
    } else {
      assert a + b == b;
    }
  }

  lemma {:induction false} StripNoSeparator(a: string)
    requires forall k :: 0 <= k < |a| ==> !IsSeparator(a[k])
    ensures Strip(a) == a
  {
    if |a| > 0 {
      StripNoSeparator(a[1..]);
    }
  }

  lemma {:induction false} StripAllSeparators(a: string)
    requires forall k :: 0 <= k < |a| ==> IsSeparator(a[k])
    ensures Strip(a) == ""
  {
    if |a| > 0 {
      StripAllSeparators(a[1..]);
    }
  }

  lemma {:induction false} SplitKeepsText(s: string)
    ensures Concat(Split(s)) == Strip(s)
    decreases |s|
  {
    var i := FirstSeparator(s);
    if i == |s| {
      StripNoSeparator(s);
      assert Concat([s]) == s + Concat([]);
    } else {
      var j := RunEnd(s, i);
      SplitKeepsText(s[j..]);
      StripAcrossRun(s, i, j);
      assert Split(s) == [s[..i]] + Split(s[j..]);
      assert Split(s)[1..] == Split(s[j..]);
    }
  }

  /** Stripping a piece, a run of separators and the rest keeps the piece and strips the rest. */
  lemma {:induction false} StripAcrossRun(s: string, i: nat, j: nat)
    requires i <= j <= |s|
    requires forall k :: 0 <= k < i ==> !IsSeparator(s[k])
    requires forall k :: i <= k < j ==> IsSeparator(s[k])
    ensures Strip(s) == s[..i] + Strip(s[j..])
  {
    var piece, run, rest := s[..i], s[i..j], s[j..];
    assert s == (piece + run) + rest;
    StripAppend(piece + run, rest);
    assert Strip(s) == Strip(piece + run) + Strip(rest);
    StripAppend(piece, run);
    assert Strip(piece + run) == Strip(piece) + Strip(run);
    assert Strip(piece) == piece by { StripNoSeparator(piece); }
    assert Strip(run) == "" by { StripAllSeparators(run); }
  }

  lemma {:induction false} DropEmptyKeepsConcat(parts: seq<string>)
    ensures Concat(DropEmpty(parts)) == Concat(parts)
  {
    if |parts| > 0 {
      DropEmptyKeepsConcat(parts[1..]);
      if parts[0] != [] {
        assert DropEmpty(parts)[1..] == DropEmpty(parts[1..]);
      }
    }
  }

  /** Repair loses no text: the keywords, put back together, are the input without its separators. */
  lemma TokensKeepText(s: string)
    ensures Concat(Tokens(s)) == Strip(s)
  {
    TokensAreClean(s);
    SplitKeepsText(s);
    DropEmptyKeepsConcat(Split(s));
  }

  lemma {:induction false} SplitJoined(ts: seq<string>, sep: char)
    requires |ts| >= 1 && AllClean(ts)
    requires IsSeparator(sep)
    ensures Split(Join(ts, [sep])) == ts
  {
    if |ts| == 1 {
      assert FirstSeparator(ts[0]) == |ts[0]|;
    } else {
      var rest := Join(ts[1..], [sep]);
      assert Join(ts, [sep]) == ts[0] + [sep] + rest;
      JoinStartsWithFirst(ts[1..], [sep]);
      SplitAfterPiece(ts[0], sep, rest);
      SplitJoined(ts[1..], sep);
      assert ts == [ts[0]] + ts[1..];
    }
  }

  /** A piece followed by one separator and then a non-separator splits off as the first piece. */
  lemma {:induction false} SplitAfterPiece(piece: string, sep: char, rest: string)
    requires forall k :: 0 <= k < |piece| ==> !IsSeparator(piece[k])
    requires IsSeparator(sep)
    requires |rest| > 0 && !IsSeparator(rest[0])
    ensures Split(piece + [sep] + rest) == [piece] + Split(rest)
  {
    var s := piece + [sep] + rest;
    var n := |piece|;
    assert s == piece + ([sep] + rest);
    FirstSeparatorAt(piece, [sep] + rest);
    assert s[n + 1] == rest[0];
    assert RunEnd(s, n + 1) == n + 1;
    assert RunEnd(s, n) == n + 1;
    assert s[..n] == piece;
    assert s[n + 1..] == rest;
  }

  lemma {:induction false} FirstSeparatorAt(a: string, b: string)
    requires forall k :: 0 <= k < |a| ==> !IsSeparator(a[k])
    requires |b| > 0 && IsSeparator(b[0])
    ensures FirstSeparator(a + b) == |a|
  {
    var i := FirstSeparator(a + b);
    assert (a + b)[|a|] == b[0];
  }

  lemma {:induction false} JoinStartsWithFirst(ts: seq<string>, sep: string)
    requires |ts| >= 1 && ts[0] != []
    ensures |Join(ts, sep)| > 0 && Join(ts, sep)[0] == ts[0][0]
  {
  }

  /**
   Round trip: a list of clean keywords joined by any separator character is
   repaired back into the same list.
   */
  lemma TokensOfJoin(ts: seq<string>, sep: char)
    requires AllClean(ts)
    requires IsSeparator(sep)
    ensures Tokens(Join(ts, [sep])) == ts
  {
    TokensAreClean(Join(ts, [sep]));
    if |ts| == 0 {
      assert Split("") == [""];
    } else {
      SplitJoined(ts, sep);
      DropEmptyClean(ts);
    }
  }

  lemma {:induction false} DropEmptyClean(ts: seq<string>)
    requires AllClean(ts)
    ensures DropEmpty(ts) == ts
  {
    if |ts| > 0 {
      DropEmptyClean(ts[1..]);
    }
  }

  /** Repairing a list that was itself repaired gives the same list. */
  lemma TokensIdempotent(s: string)
    ensures Tokens(Join(Tokens(s), ",")) == Tokens(s)
  {
    TokensAreClean(s);
    TokensOfJoin(Tokens(s), ',');
  }

  /**
   Keywords laid out between gaps: `gaps[0] + ts[0] + gaps[1] + … + ts[n-1] + gaps[n]`,
   as in "Java, microservices, API" or " Java,,SQL ".
   */
  function Delimited(ts: seq<string>, gaps: seq<string>): string
    requires |gaps| == |ts| + 1
  {
    if |ts| == 0 then gaps[0] else gaps[0] + ts[0] + Delimited(ts[1..], gaps[1..])
  }

  /**
   The gaps of a delimited string: every gap is made of separators, and the
   ones between two keywords are not empty. The first and last may be.
   */
  predicate ProperGaps(ts: seq<string>, gaps: seq<string>) {
    && |gaps| == |ts| + 1
    && (forall j, k :: 0 <= j < |gaps| && 0 <= k < |gaps[j]| ==> IsSeparator(gaps[j][k]))
    && (forall j :: 0 < j < |ts| ==> gaps[j] != [])
  }

  /** The pieces `split` keeps once the empty ones are filtered out. */
  function NonEmptyPieces(s: string): seq<string> {
    DropEmpty(Split(s))
  }

  /** Moving a run of separators past a common prefix shifts its end by the prefix length. */
  lemma {:induction false} RunEndOffset(a: string, y: string, k: nat)
    requires k <= |y|
    ensures RunEnd(a + y, |a| + k) == |a| + RunEnd(y, k)
    decreases |y| - k
  {
    if k < |y| {
      assert (a + y)[|a| + k] == y[k];
      if IsSeparator(y[k]) {
        RunEndOffset(a, y, k + 1);
      }
    }
  }

  /** A string that starts with a separator splits into an empty piece and what follows the run. */
  lemma {:induction false} PiecesAfterLeadingRun(y: string)
    requires |y| > 0 && IsSeparator(y[0])
    ensures NonEmptyPieces(y) == NonEmptyPieces(y[RunEnd(y, 0)..])
  {
    assert FirstSeparator(y) == 0;
    assert Split(y) == [""] + Split(y[RunEnd(y, 0)..]);
    assert ([""] + Split(y[RunEnd(y, 0)..]))[1..] == Split(y[RunEnd(y, 0)..]);
  }

  /** One leading separator is dropped by the repair. */
  lemma {:induction false} PiecesDropsSeparator(c: char, s: string)
    requires IsSeparator(c)
    ensures NonEmptyPieces([c] + s) == NonEmptyPieces(s)
  {
    var x := [c] + s;
    PiecesAfterLeadingRun(x);
    RunEndOffset([c], s, 0);
    assert RunEnd(x, 0) == RunEnd(x, 1);
    var e := RunEnd(s, 0);
    assert x[RunEnd(x, 0)..] == s[e..];
    if e > 0 {
      PiecesAfterLeadingRun(s);
    } else {
      assert s[e..] == s;
    }
  }

  /** Any leading run of separators is dropped by the repair. */
  lemma {:induction false} PiecesDropsRun(run: string, s: string)
    requires forall k :: 0 <= k < |run| ==> IsSeparator(run[k])
    ensures NonEmptyPieces(run + s) == NonEmptyPieces(s)
  {
    if |run| > 0 {
      assert run + s == [run[0]] + (run[1..] + s);
      PiecesDropsSeparator(run[0], run[1..] + s);
      PiecesDropsRun(run[1..], s);
    } else {
      assert run + s == s;
    }
  }

  /** A clean keyword followed by nothing or by a separator splits off as the first keyword. */
  lemma {:induction false} PiecesSplitsOffToken(t: string, y: string)
    requires IsCleanToken(t)
    requires y == [] || IsSeparator(y[0])
    ensures NonEmptyPieces(t + y) == [t] + NonEmptyPieces(y)
  {
    var x := t + y;
    if y == [] {
      assert x == t;
      assert FirstSeparator(t) == |t|;
      assert Split("") == [""];
      assert DropEmpty([t]) == [t] + DropEmpty([]);
    } else {
      FirstSeparatorAt(t, y);
      assert x[..|t|] == t;
      assert Split(x) == [t] + Split(x[RunEnd(x, |t|)..]);
      assert DropEmpty(Split(x)) == [t] + DropEmpty(Split(x)[1..]);
      RunEndOffset(t, y, 0);
      assert x[RunEnd(x, |t|)..] == y[RunEnd(y, 0)..];
      PiecesAfterLeadingRun(y);
    }
  }

  /** A delimited string after its first gap is empty or starts with a separator. */
  lemma {:induction false} DelimitedTailStart(ts: seq<string>, gaps: seq<string>)
    requires ProperGaps(ts, gaps) && |ts| >= 1
    ensures var r := Delimited(ts[1..], gaps[1..]);
      r == [] || IsSeparator(r[0])
  {
    var r := Delimited(ts[1..], gaps[1..]);
    if |ts| > 1 {
      assert gaps[1] != [];
      assert r == gaps[1] + (ts[1] + Delimited(ts[2..], gaps[2..]));
      assert r[0] == gaps[1][0];
    } else {
      assert r == gaps[1];
    }
  }

  lemma {:induction false} PiecesOfDelimited(ts: seq<string>, gaps: seq<string>)
    requires AllClean(ts) && ProperGaps(ts, gaps)
    ensures NonEmptyPieces(Delimited(ts, gaps)) == ts
  {
    if |ts| == 0 {
      PiecesDropsRun(gaps[0], "");
      assert gaps[0] + "" == gaps[0];
      assert Split("") == [""];
    } else {
      var rest := Delimited(ts[1..], gaps[1..]);
      assert Delimited(ts, gaps) == gaps[0] + (ts[0] + rest);
      PiecesDropsRun(gaps[0], ts[0] + rest);
      DelimitedTailStart(ts, gaps);
      assert IsCleanToken(ts[0]);
      PiecesSplitsOffToken(ts[0], rest);
      assert ProperGaps(ts[1..], gaps[1..]) by {
        forall j | 0 < j < |ts[1..]| ensures gaps[1..][j] != [] {
          assert gaps[1..][j] == gaps[j + 1];
        }
      }
      PiecesOfDelimited(ts[1..], gaps[1..]);
      assert ts == [ts[0]] + ts[1..];
    }
  }

  /**
   Round trip: clean keywords separated by any non-empty runs of commas and
   white space, with any run before the first and after the last, are
   repaired back into the same list.
   */
  lemma TokensOfDelimited(ts: seq<string>, gaps: seq<string>)
    requires AllClean(ts) && ProperGaps(ts, gaps)
    ensures Tokens(Delimited(ts, gaps)) == ts
  {
    TokensAreClean(Delimited(ts, gaps));
    PiecesOfDelimited(ts, gaps);
  }

  /** The keyword string of a typical answer is repaired into its three keywords. */
  lemma TypicalKeywordString()
    ensures Tokens("Java, microservices, API") == ["Java", "microservices", "API"]
  {
    var ts := ["Java", "microservices", "API"];
    var gaps := ["", ", ", ", ", ""];
    assert Delimited(ts, gaps) == "Java, microservices, API";
    TokensOfDelimited(ts, gaps);
  }

  /** The failure `analyzeCV` reports when the keyword description cannot be split. */
  const SplitFailure := "Analysis failed: Cannot read properties of undefined (reading 'split')"

  /** A "Missing Keywords" section with no description: `.split` throws on it. */
  predicate Unrepairable(sec: RawSection) {
    sec.title == MissingKeywords && sec.description.Absent?
  }

  /** The description a raw section ends up with once repaired. */
  predicate RepairedAs(sec: RawSection, d: Description) {
    if sec.title != MissingKeywords then d == sec.description
    else match sec.description
      case Text(s) => d == List(Tokens(s))
      case List(_) => d == sec.description
      case Absent => false
  }

  /** The repair step: only a "Missing Keywords" string is rewritten, into its keyword list. */
  function RepairDescription(sec: RawSection): (r: Result<Description>)
    ensures r.Err? <==> Unrepairable(sec)
    ensures r.Ok? ==> RepairedAs(sec, r.value)
    ensures r.Ok? && sec.title == MissingKeywords ==> r.value.List?
  {
    if sec.title == MissingKeywords && !sec.description.List? then
      match sec.description
      case Text(s) => Ok(List(Tokens(s)))
      case _ => Err(SplitFailure)
    else
      Ok(sec.description)
  }

  /** A raw section and its normalised form agree on title, description and derived status. */
  predicate NormalizedAs(sec: RawSection, out: Section, matchScore: int) {
    && out.title == sec.title
    && RepairedAs(sec, out.description)
    && out.status == DetermineStatus(out.title, out.description, matchScore)
  }

  /** The `sections.map(...)` of `analyzeCV`; the first unrepairable section aborts the whole map. */
  function NormalizeSections(secs: seq<RawSection>, matchScore: int): (r: Result<seq<Section>>)
    ensures r.Err? <==> exists j :: 0 <= j < |secs| && Unrepairable(secs[j])
    ensures r.Err? ==> r.message == SplitFailure
    ensures r.Ok? ==> |r.value| == |secs|
    ensures r.Ok? ==> forall j :: 0 <= j < |secs| ==> NormalizedAs(secs[j], r.value[j], matchScore)
  {
    if |secs| == 0 then Ok([])
    else
      match RepairDescription(secs[0])
      case Err(e) => Err(e)
      case Ok(d) =>
        var head := Section(secs[0].title, d, DetermineStatus(secs[0].title, d, matchScore));
        match NormalizeSections(secs[1..], matchScore)
        case Err(e) => Err(e)
        case Ok(tail) => Ok([head] + tail)
  }

  /**
   The normalisation `analyzeCV` applies to the model's parsed answer: same
   score, same sections in the same order, each repaired and classified.
   */
  function Normalize(answer: ParsedAnswer): (r: Result<MatchReport>)
    ensures r.Err? <==> exists j :: 0 <= j < |answer.sections| && Unrepairable(answer.sections[j])
    ensures r.Ok? ==> r.value.matchScore == answer.matchScore
    ensures r.Ok? ==> |r.value.sections| == |answer.sections|
    ensures r.Ok? ==> forall j :: 0 <= j < |answer.sections| ==>
      NormalizedAs(answer.sections[j], r.value.sections[j], answer.matchScore)
  {
    match NormalizeSections(answer.sections, answer.matchScore)
    case Err(e) => Err(e)
    case Ok(secs) => Ok(MatchReport(answer.matchScore, secs))
  }

  /** After normalisation every "Missing Keywords" section holds a list, clean whenever it was repaired from a string. */
  lemma KeywordsEndUpAsList(answer: ParsedAnswer)
    requires Normalize(answer).Ok?
    ensures forall j :: 0 <= j < |answer.sections| && answer.sections[j].title == MissingKeywords ==>
      && Normalize(answer).value.sections[j].description.List?
      && (answer.sections[j].description.Text? ==> AllClean(Normalize(answer).value.sections[j].description.items))
  {
    forall j | 0 <= j < |answer.sections| && answer.sections[j].title == MissingKeywords
        && answer.sections[j].description.Text?
      ensures AllClean(Normalize(answer).value.sections[j].description.items)
    {
      TokensAreClean(answer.sections[j].description.text);
    }
  }

  /** A section with its status dropped. */
  function Unclassified(sec: Section): RawSection {
    RawSection(sec.title, sec.description)
  }

  /** Feeding a normalised report back through normalisation reproduces it. */
  lemma NormalizeIdempotent(answer: ParsedAnswer)
    requires Normalize(answer).Ok?
    ensures var rep := Normalize(answer).value;
      Normalize(ParsedAnswer(rep.matchScore, seq(|rep.sections|, j requires 0 <= j < |rep.sections| => Unclassified(rep.sections[j]))))
        == Ok(rep)
  {
    var rep := Normalize(answer).value;
    var again := ParsedAnswer(rep.matchScore, seq(|rep.sections|, j requires 0 <= j < |rep.sections| => Unclassified(rep.sections[j])));
    KeywordsEndUpAsList(answer);
    var r := Normalize(again);
    assert r.Ok?;
    assert |r.value.sections| == |rep.sections|;
    forall j | 0 <= j < |rep.sections| ensures r.value.sections[j] == rep.sections[j] { }
    assert r.value.sections == rep.sections;
  }

  /** A list of clean keywords joined with commas contains no space character. */
  lemma {:induction false} JoinedCleanHasNoSpace(ts: seq<string>)
    requires AllClean(ts)
    ensures forall k :: 0 <= k < |Join(ts, ",")| ==> Join(ts, ",")[k] != ' '
  {
    if |ts| > 1 {
      JoinedCleanHasNoSpace(ts[1..]);
      var rest := Join(ts[1..], ",");
      assert Join(ts, ",") == ts[0] + "," + rest;
      forall k | 0 <= k < |Join(ts, ",")| ensures Join(ts, ",")[k] != ' ' {
        if k < |ts[0]| {
          assert !IsSeparator(ts[0][k]) && IsSeparator(' ');
        } else if k > |ts[0]| {
          assert Join(ts, ",")[k] == rest[k - |ts[0]| - 1];
        }
      }
    } else if |ts| == 1 {
      assert IsSeparator(' ');
    }
  }

  /** Clean keywords joined with commas never contain the phrase "no missing", which has a space in it. */
  lemma JoinedCleanNeverSaysNoMissing(ts: seq<string>)
    requires AllClean(ts)
    ensures !Contains(Lower(Join(ts, ",")), "no missing")
  {
    var joined := Join(ts, ",");
    var text := Lower(joined);
    JoinedCleanHasNoSpace(ts);
    forall i | 0 <= i < |text| ensures text[i] != "no missing"[2] {
      assert LowerChar(joined[i]) == text[i];
    }
    if Contains(text, "no missing") {
      ContainsChar(text, "no missing", 2);
      assert false;
    }
  }

  /**
   Once a "Missing Keywords" string is repaired, its words are stringified with
   commas between them, so the phrase "no missing" can no longer be found:
   only "none" can make such a section a success.
   */
  lemma RepairedTextNeverSaysNoMissing(s: string, matchScore: int)
    ensures !Contains(Lower(Join(Tokens(s), ",")), "no missing")
    ensures DetermineStatus(MissingKeywords, List(Tokens(s)), matchScore) == Success
        <==> Contains(Lower(Join(Tokens(s), ",")), "none")
  {
    var ts := Tokens(s);
    TokensAreClean(s);
    JoinedCleanNeverSaysNoMissing(ts);
    var text := Lower(Join(ts, ","));
    assert Stringify(List(ts)) == Join(ts, ",");
    NothingMissingUnfolds(text);
  }

  lemma NothingMissingUnfolds(text: string)
    ensures ContainsAny(text, NothingMissingWords) <==> Contains(text, "no missing") || Contains(text, "none")
  {
    assert NothingMissingWords[0] == "no missing";
    assert NothingMissingWords[1..] == ["none"];
    assert ["none"][1..] == [];
    assert ContainsAny(text, ["none"]) <==> Contains(text, "none");
  }

  /** A "Missing Keywords" string with no keyword in it becomes an empty list, which is a warning and not an error. */
  lemma BlankKeywordTextIsWarning(s: string, matchScore: int)
    requires forall k :: 0 <= k < |s| ==> IsSeparator(s[k])
    ensures Normalize(ParsedAnswer(matchScore, [RawSection(MissingKeywords, Text(s))]))
         == Ok(MatchReport(matchScore, [Section(MissingKeywords, List([]), Warning)]))
  {
    TokensKeepText(s);
    StripAllSeparators(s);
    TokensAreClean(s);
    assert Tokens(s) == [];
    assert Stringify(List([])) == "";
    assert Lower("") == "";
    NothingMissingUnfolds("");
    assert !Contains("", "none") && !Contains("", "no missing");
    assert DetermineStatus(MissingKeywords, List([]), matchScore) == Warning;
    var raw := [RawSection(MissingKeywords, Text(s))];
    assert RepairDescription(raw[0]) == Ok(List([]));
    assert raw[1..] == [];
    assert NormalizeSections(raw[1..], matchScore) == Ok([]);
    assert [Section(MissingKeywords, List([]), Warning)] + [] == [Section(MissingKeywords, List([]), Warning)];
    assert NormalizeSections(raw, matchScore) == Ok([Section(MissingKeywords, List([]), Warning)]);
  }
}
