/**
 The history view of the web client: past evaluations filtered by a search
 term and optionally ordered by score.
 */
module Dashboard {
  import opened Wrappers
  import opened JsString
  import opened Report

  /** One past evaluation kept in the client's history. */
  datatype Evaluation = Evaluation(filename: string, matchScore: int, sections: seq<Section>)

  /** The three filter buttons. */
  datatype SortOrder = All | Highest | Lowest

  /**
   `q` (already lower-cased) occurs at some position of the lower-cased
   description text, or at some position of one of its lower-cased items.
   */
  ghost predicate MentionedIn(d: Description, q: string) {
    match d
    case Text(s) => exists i :: OccursAt(Lower(s), q, i)
    case List(items) => exists k, i :: 0 <= k < |items| && OccursAt(Lower(items[k]), q, i)
    case Absent => false
  }

  /**
   The per-section test of the search: a string description is searched, a
   list is searched item by item, and a missing one makes `.some` throw (`None`).
   */
  function DescriptionHit(d: Description, q: string): (r: Option<bool>)
    ensures r.None? <==> d.Absent?
    ensures r.Some? ==> (r.value <==> MentionedIn(d, q))
  {
    match d
    case Text(s) =>
      ContainsIffOccurs(Lower(s), q);
      Some(Contains(Lower(s), q))
    case List(items) =>
      assert forall k :: 0 <= k < |items| ==>
          (Contains(Lower(items[k]), q) <==> exists i :: OccursAt(Lower(items[k]), q, i)) by {
        forall k | 0 <= k < |items| {
          ContainsIffOccurs(Lower(items[k]), q);
        }
      }
      Some(exists k :: 0 <= k < |items| && Contains(Lower(items[k]), q))
    case Absent => None
  }

  /** `sections.some(...)`: stops at the first hit; a missing description reached before any hit throws. */
  function AnySectionHit(secs: seq<Section>, q: string): (r: Option<bool>)
  {
    if |secs| == 0 then Some(false)
    else
      match DescriptionHit(secs[0].description, q)
      case None => None
      case Some(hit) => if hit then Some(true) else AnySectionHit(secs[1..], q)
  }

  /** The filter callback: filename first, then the sections. */
  function KeepOutcome(e: Evaluation, term: string): Option<bool> {
    var q := Lower(term);
    if Contains(Lower(e.filename), q) then Some(true) else AnySectionHit(e.sections, q)
  }

  predicate Kept(e: Evaluation, term: string) {
    KeepOutcome(e, term) == Some(true)
  }

  /**
   The search as a user would state it: the term occurs, ignoring case, in
   the filename, or in some section's description that is reached before any
   section without a description.
   */
  ghost predicate MatchesSearch(e: Evaluation, term: string) {
    var q := Lower(term);
    || (exists i :: OccursAt(Lower(e.filename), q, i))
    || exists j :: 0 <= j < |e.sections| && MentionedIn(e.sections[j].description, q)
                   && (forall k :: 0 <= k < j ==> !e.sections[k].description.Absent?)
  }

  lemma {:induction false} AnySectionHitIffMentioned(secs: seq<Section>, q: string)
    ensures AnySectionHit(secs, q) == Some(true) <==>
      exists j :: 0 <= j < |secs| && MentionedIn(secs[j].description, q)
                  && (forall k :: 0 <= k < j ==> !secs[k].description.Absent?)
    ensures AnySectionHit(secs, q).None? ==> exists j :: 0 <= j < |secs| && secs[j].description.Absent?
  {
    if |secs| > 0 {
      AnySectionHitIffMentioned(secs[1..], q);
      var head := secs[0].description;
      if !head.Absent? && !MentionedIn(head, q) {
        assert forall j :: 1 <= j < |secs| ==> secs[j] == secs[1..][j - 1];
        if exists j :: 0 <= j < |secs| && MentionedIn(secs[j].description, q)
                       && (forall k :: 0 <= k < j ==> !secs[k].description.Absent?) {
          var j :| 0 <= j < |secs| && MentionedIn(secs[j].description, q)
                   && (forall k :: 0 <= k < j ==> !secs[k].description.Absent?);
          assert MentionedIn(secs[1..][j - 1].description, q);
          assert forall k :: 0 <= k < j - 1 ==> !secs[1..][k].description.Absent?;
        }
      } else if head.Absent? {
        assert secs[0].description.Absent?;
      } else {
        assert MentionedIn(secs[0].description, q);
      }
    }
  }

  /** The filter callback keeps exactly the evaluations that match the search. */
  lemma KeptIffMatches(e: Evaluation, term: string)
    ensures Kept(e, term) <==> MatchesSearch(e, term)
  {
    ContainsIffOccurs(Lower(e.filename), Lower(term));
    AnySectionHitIffMentioned(e.sections, Lower(term));
  }

  /** An evaluation whose sections all have descriptions never makes the filter throw. */
  lemma CompleteEvaluationNeverThrows(e: Evaluation, term: string)
    requires forall j :: 0 <= j < |e.sections| ==> !e.sections[j].description.Absent?
    ensures KeepOutcome(e, term).Some?
  {
    ContainsIffOccurs(Lower(e.filename), Lower(term));
    AnySectionHitIffMentioned(e.sections, Lower(term));
  }

  /** `a` can be obtained from `b` by deleting elements. */
  predicate IsSubsequence<T(==)>(a: seq<T>, b: seq<T>)
    decreases |b|
  {
    if |a| == 0 then true
    else if |b| == 0 then false
    else (a[0] == b[0] && IsSubsequence(a[1..], b[1..])) || IsSubsequence(a, b[1..])
  }

  /** The number of evaluations the filter callback keeps. */
  function CountKept(evals: seq<Evaluation>, term: string): nat {
    if |evals| == 0 then 0 else (if Kept(evals[0], term) then 1 else 0) + CountKept(evals[1..], term)
  }

  /**
   `evaluations.filter(...)`: a fresh list of the kept evaluations in their
   original order, or `None` when the callback throws on some evaluation.
   */
  function FilterEvaluations(evals: seq<Evaluation>, term: string): (r: Option<seq<Evaluation>>)
    ensures r.Some? <==> forall i :: 0 <= i < |evals| ==> KeepOutcome(evals[i], term).Some?
    ensures r.Some? ==> IsSubsequence(r.value, evals)
    ensures r.Some? ==> forall i :: 0 <= i < |r.value| ==> Kept(r.value[i], term)
    ensures r.Some? ==> |r.value| == CountKept(evals, term)
  {
    if |evals| == 0 then Some([])
    else
      match KeepOutcome(evals[0], term)
      case None => None
      case Some(keep) =>
        match FilterEvaluations(evals[1..], term)
        case None =>
          assert exists i :: 1 <= i < |evals| && KeepOutcome(evals[i], term).None? by {
            var i :| 0 <= i < |evals[1..]| && KeepOutcome(evals[1..][i], term).None?;
            assert evals[i + 1] == evals[1..][i];
          }
          None
        case Some(rest) =>
          assert forall i :: 1 <= i < |evals| ==> evals[i] == evals[1..][i - 1];
          if keep then
            assert ([evals[0]] + rest)[1..] == rest;
            Some([evals[0]] + rest)
          else
            SubsequenceOfTail(rest, evals);
            Some(rest)
  }

  lemma SubsequenceOfTail(a: seq<Evaluation>, b: seq<Evaluation>)
    requires |b| > 0 && IsSubsequence(a, b[1..])
    ensures IsSubsequence(a, b)
  {
  }

  /** An empty search term keeps every evaluation, because every string includes "". */
  lemma {:induction false} EmptySearchKeepsAll(evals: seq<Evaluation>)
    ensures FilterEvaluations(evals, "") == Some(evals)
  {
    if |evals| > 0 {
      ContainsEmpty(Lower(evals[0].filename));
      assert Lower("") == "";
      EmptySearchKeepsAll(evals[1..]);
      assert [evals[0]] + evals[1..] == evals;
    }
  }

  /** The sort key: ascending by score for "lowest", by negated score for "highest". */
  function Key(e: Evaluation, descending: bool): int {
    if descending then -e.matchScore else e.matchScore
  }

  predicate SortedBy(xs: seq<Evaluation>, descending: bool) {
    forall i, j :: 0 <= i < j < |xs| ==> Key(xs[i], descending) <= Key(xs[j], descending)
  }

  /** The evaluations of `xs` with score `score`, in order. */
  function WithScore(xs: seq<Evaluation>, score: int): seq<Evaluation> {
    if |xs| == 0 then []
    else (if xs[0].matchScore == score then [xs[0]] else []) + WithScore(xs[1..], score)
  }

  /** Places `x` in front of the first element whose key is not smaller. */
  function Insert(x: Evaluation, ys: seq<Evaluation>, descending: bool): (r: seq<Evaluation>)
    ensures multiset(r) == multiset(ys) + multiset{x}
  {
    if |ys| == 0 || Key(x, descending) <= Key(ys[0], descending) then [x] + ys
    else
      var rest := Insert(x, ys[1..], descending);
      assert ys == [ys[0]] + ys[1..];
      [ys[0]] + rest
  }

  /**
   `data.sort(...)` with the comparator of the "highest" or "lowest" button.
   `Array.prototype.sort` is stable, so this is a stable insertion sort.
   */
  function SortByScore(xs: seq<Evaluation>, descending: bool): (r: seq<Evaluation>)
    ensures multiset(r) == multiset(xs)
    ensures SortedBy(r, descending)
  {
    if |xs| == 0 then []
    else
      assert xs == [xs[0]] + xs[1..];
      InsertSorted(xs[0], SortByScore(xs[1..], descending), descending);
      Insert(xs[0], SortByScore(xs[1..], descending), descending)
  }

  /** Inserting into a sorted list keeps it sorted. */
  lemma {:induction false} InsertSorted(x: Evaluation, ys: seq<Evaluation>, descending: bool)
    requires SortedBy(ys, descending)
    ensures SortedBy(Insert(x, ys, descending), descending)
  {
    if |ys| > 0 && Key(x, descending) > Key(ys[0], descending) {
      InsertSorted(x, ys[1..], descending);
      InsertKeepsBound(x, ys[1..], descending, Key(ys[0], descending));
      var rest := Insert(x, ys[1..], descending);
      assert Insert(x, ys, descending) == [ys[0]] + rest;
    }
  }

  /** A lower bound on the keys of `x` and of `ys` bounds the keys after insertion. */
  lemma {:induction false} InsertKeepsBound(x: Evaluation, ys: seq<Evaluation>, descending: bool, bound: int)
    requires bound <= Key(x, descending)
    requires forall i :: 0 <= i < |ys| ==> bound <= Key(ys[i], descending)
    ensures forall i :: 0 <= i < |Insert(x, ys, descending)| ==> bound <= Key(Insert(x, ys, descending)[i], descending)
  {
    if |ys| > 0 && Key(x, descending) > Key(ys[0], descending) {
      InsertKeepsBound(x, ys[1..], descending, bound);
      var rest := Insert(x, ys[1..], descending);
      assert Insert(x, ys, descending) == [ys[0]] + rest;
    }
  }

  lemma {:induction false} WithScoreAppend(a: seq<Evaluation>, b: seq<Evaluation>, score: int)
    ensures WithScore(a + b, score) == WithScore(a, score) + WithScore(b, score)
  {
    if |a| == 0 {
      assert a + b == b;
    } else {
      var ab := a + b;
      assert ab[0] == a[0];
      assert ab[1..] == a[1..] + b;
      WithScoreAppend(a[1..], b, score);
      var head := if a[0].matchScore == score then [a[0]] else [];
      assert WithScore(ab, score) == head + WithScore(a[1..] + b, score);
      assert WithScore(a, score) == head + WithScore(a[1..], score);
    }
  }

  lemma {:induction false} InsertWithScore(x: Evaluation, ys: seq<Evaluation>, descending: bool, score: int)
    requires SortedBy(ys, descending)
    ensures WithScore(Insert(x, ys, descending), score) ==
      (if x.matchScore == score then [x] else []) + WithScore(ys, score)
  {
    if |ys| == 0 || Key(x, descending) <= Key(ys[0], descending) {
      assert Insert(x, ys, descending) == [x] + ys;
      WithScoreAppend([x], ys, score);
    } else {
      InsertWithScore(x, ys[1..], descending, score);
      var rest := Insert(x, ys[1..], descending);
      assert Insert(x, ys, descending) == [ys[0]] + rest;
      WithScoreAppend([ys[0]], rest, score);
      WithScoreAppend([ys[0]], ys[1..], score);
      assert ys == [ys[0]] + ys[1..];
    }
  }

  /** Stability: evaluations with equal scores keep their relative order. */
  lemma {:induction false} SortIsStable(xs: seq<Evaluation>, descending: bool, score: int)
    ensures WithScore(SortByScore(xs, descending), score) == WithScore(xs, score)
  {
    if |xs| > 0 {
      SortIsStable(xs[1..], descending, score);
      InsertWithScore(xs[0], SortByScore(xs[1..], descending), descending, score);
      WithScoreAppend([xs[0]], xs[1..], score);
      assert xs == [xs[0]] + xs[1..];
    }
  }

  /** `filteredEvaluations`: filter, then sort unless the filter is "all". */
  function FilteredEvaluations(evals: seq<Evaluation>, term: string, order: SortOrder): (r: Option<seq<Evaluation>>)
    ensures r.Some? <==> FilterEvaluations(evals, term).Some?
    ensures r.Some? ==> multiset(r.value) == multiset(FilterEvaluations(evals, term).value)
    ensures r.Some? ==> forall i :: 0 <= i < |r.value| ==> Kept(r.value[i], term)
    ensures r.Some? && order == All ==> IsSubsequence(r.value, evals)
    ensures r.Some? && order == Highest ==> SortedBy(r.value, true)
    ensures r.Some? && order == Lowest ==> SortedBy(r.value, false)
  {
    match FilterEvaluations(evals, term)
    case None => None
    case Some(data) =>
      if order == Highest then
        var r := SortByScore(data, true);
        assert forall i :: 0 <= i < |r| ==> r[i] in multiset(data);
        Some(r)
      else if order == Lowest then
        var r := SortByScore(data, false);
        assert forall i :: 0 <= i < |r| ==> r[i] in multiset(data);
        Some(r)
      else Some(data)
  }
}
