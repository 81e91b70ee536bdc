/** Exact matching of a seeker's skills against the essential skills of a job
    posting. Skills are taxonomy URIs; the result splits the job's URIs into
    matched and missing ones, scores the overlap as a whole percentage and
    resolves every URI to a display title. */
module SkillMatching {

  /** The result handed to the match route: score, the two URI lists and
      their display titles. */
  datatype MatchResult = MatchResult(
    matchScore: nat,
    matchedSkills: seq<string>,
    missingSkills: seq<string>,
    matchedTitles: seq<string>,
    missingTitles: seq<string>)

  /** The job URIs the seeker has, in job order, one entry per occurrence. */
  function Matched(jobSkillUris: seq<string>, seekerSet: set<string>): (matched: seq<string>)
    ensures |matched| <= |jobSkillUris|
  {
    if jobSkillUris == [] then []
    else
      var init := Matched(jobSkillUris[..|jobSkillUris| - 1], seekerSet);
      var uri := jobSkillUris[|jobSkillUris| - 1];
      if uri in seekerSet then init + [uri] else init
  }

  /** The job URIs the seeker lacks, in job order, one entry per occurrence. */
  function Missing(jobSkillUris: seq<string>, seekerSet: set<string>): (missing: seq<string>)
    ensures |missing| <= |jobSkillUris|
  {
    if jobSkillUris == [] then []
    else
      var init := Missing(jobSkillUris[..|jobSkillUris| - 1], seekerSet);
      var uri := jobSkillUris[|jobSkillUris| - 1];
      if uri !in seekerSet then init + [uri] else init
  }

  /** `Math.round(matched / total * 100)` in exact arithmetic: the percentage
      rounded to the nearest integer, halves rounded up. */
  function RoundedPercent(matched: nat, total: nat): (score: nat)
    requires 0 < total && matched <= total
    ensures score <= 100
    ensures 2 * total * score <= 200 * matched + total < 2 * total * (score + 1)
  {
    DivBounds(200 * matched + total, 2 * total);
    var q := (200 * matched + total) / (2 * total);
    MulLtCancel(q, 101, 2 * total);
    q
  }

  /** The quotient of Euclidean division, bracketed. */
  lemma DivBounds(n: nat, d: nat)
    requires d > 0
    ensures d * (n / d) <= n < d * (n / d + 1)
  {
    assert n == d * (n / d) + n % d;
    assert d * (n / d + 1) == d * (n / d) + d;
  }

  lemma MulLtCancel(a: int, b: int, d: int)
    requires d > 0 && d * a < d * b
    ensures a < b
  {
  }

  lemma MulLeq(a: nat, b: nat, c: nat)
    requires a <= b
    ensures c * a <= c * b
  {
    assert c * b == c * a + c * (b - a);
  }

  /** `matchScore`: zero for a job without skills, otherwise the rounded
      share of matched skills. */
  function MatchScore(matched: nat, total: nat): (score: nat)
    requires matched <= total
    ensures score <= 100
    ensures total == 0 ==> score == 0
  {
    if total > 0 then RoundedPercent(matched, total) else 0
  }

  /** JavaScript `a || b` on strings: the empty string is falsy. */
  function OrElse(a: string, b: string): string {
    if a != "" then a else b
  }

  /** A lookup in a `Record<string, string>`: an absent key reads as
      `undefined`, which is falsy like the empty string. */
  function Lookup(titles: map<string, string>, uri: string): string {
    if uri in titles then titles[uri] else ""
  }

  /** `jobTitleMap[uri] || seekerTitleMap[uri] || uri` */
  function MatchedTitle(uri: string, seekerTitleMap: map<string, string>, jobTitleMap: map<string, string>): (title: string)
    ensures title == uri || (title != "" && (title in jobTitleMap.Values || title in seekerTitleMap.Values))
    ensures uri != "" ==> title != ""
  {
    OrElse(OrElse(Lookup(jobTitleMap, uri), Lookup(seekerTitleMap, uri)), uri)
  }

  /** `jobTitleMap[uri] || uri` */
  function MissingTitle(uri: string, jobTitleMap: map<string, string>): (title: string)
    ensures title == uri || (title != "" && title in jobTitleMap.Values)
    ensures uri != "" ==> title != ""
  {
    OrElse(Lookup(jobTitleMap, uri), uri)
  }

  function MatchedTitles(uris: seq<string>, seekerTitleMap: map<string, string>, jobTitleMap: map<string, string>): (titles: seq<string>)
    ensures |titles| == |uris|
  {
    seq(|uris|, i requires 0 <= i < |uris| => MatchedTitle(uris[i], seekerTitleMap, jobTitleMap))
  }

  function MissingTitles(uris: seq<string>, jobTitleMap: map<string, string>): (titles: seq<string>)
    ensures |titles| == |uris|
  {
    seq(|uris|, i requires 0 <= i < |uris| => MissingTitle(uris[i], jobTitleMap))
  }

  /** The result `matchSkills` returns, as a function of its inputs. */
  function Match(
    seekerSkillUris: seq<string>,
    jobSkillUris: seq<string>,
    seekerTitleMap: map<string, string>,
    jobTitleMap: map<string, string>): (result: MatchResult)
    ensures |result.matchedSkills| + |result.missingSkills| == |jobSkillUris|
    ensures result.matchScore <= 100 && (jobSkillUris == [] ==> result.matchScore == 0)
    ensures forall u :: u in result.matchedSkills ==> u in jobSkillUris && u in seekerSkillUris
    ensures forall u :: u in result.missingSkills ==> u in jobSkillUris && u !in seekerSkillUris
    ensures |result.matchedTitles| == |result.matchedSkills|
    ensures |result.missingTitles| == |result.missingSkills|
  {
    var seekerSet := set u | u in seekerSkillUris;
    var matched := Matched(jobSkillUris, seekerSet);
    var missing := Missing(jobSkillUris, seekerSet);
    PartitionSizes(jobSkillUris, seekerSet);
    ClassifiedMembers(jobSkillUris, seekerSet);
    MatchResult(
      MatchScore(|matched|, |jobSkillUris|),
      matched,
      missing,
      MatchedTitles(matched, seekerTitleMap, jobTitleMap),
      MissingTitles(missing, jobTitleMap))
  }

  /** matchSkills: one pass over the job's URIs pushes each onto the matched
      or the missing list; then the score and the title lists. */
  method MatchSkills(
    seekerSkillUris: seq<string>,
    jobSkillUris: seq<string>,
    seekerTitleMap: map<string, string>,
    jobTitleMap: map<string, string>) returns (result: MatchResult)
    ensures result == Match(seekerSkillUris, jobSkillUris, seekerTitleMap, jobTitleMap)
    ensures |result.matchedSkills| + |result.missingSkills| == |jobSkillUris|
    ensures result.matchScore <= 100
    ensures forall u :: u in result.matchedSkills ==> u in seekerSkillUris
    ensures forall u :: u in result.missingSkills ==> u !in seekerSkillUris
  {
    var seekerSet := set u | u in seekerSkillUris;
    var matchedSkills: seq<string> := [];
    var missingSkills: seq<string> := [];
    for i := 0 to |jobSkillUris|
      invariant matchedSkills == Matched(jobSkillUris[..i], seekerSet)
      invariant missingSkills == Missing(jobSkillUris[..i], seekerSet)
    {
      var uri := jobSkillUris[i];
      assert jobSkillUris[..i + 1][..i] == jobSkillUris[..i];
      if uri in seekerSet {
        matchedSkills := matchedSkills + [uri];
      } else {
        missingSkills := missingSkills + [uri];
      }
    }
    assert jobSkillUris[..|jobSkillUris|] == jobSkillUris;
    PartitionSizes(jobSkillUris, seekerSet);
    ClassifiedMembers(jobSkillUris, seekerSet);
    var matchScore := MatchScore(|matchedSkills|, |jobSkillUris|);
    result := MatchResult(
      matchScore,
      matchedSkills,
      missingSkills,
      MatchedTitles(matchedSkills, seekerTitleMap, jobTitleMap),
      MissingTitles(missingSkills, jobTitleMap));
  }

  /** Every occurrence of a job URI lands in exactly one of the two lists:
      the sizes add up and, duplicates counted, the two lists together hold
      the job's URIs. */
  lemma {:induction false} PartitionSizes(jobSkillUris: seq<string>, seekerSet: set<string>)
    ensures |Matched(jobSkillUris, seekerSet)| + |Missing(jobSkillUris, seekerSet)| == |jobSkillUris|
    ensures multiset(Matched(jobSkillUris, seekerSet)) + multiset(Missing(jobSkillUris, seekerSet))
      == multiset(jobSkillUris)
  {
    if jobSkillUris != [] {
      var init := jobSkillUris[..|jobSkillUris| - 1];
      PartitionSizes(init, seekerSet);
      assert jobSkillUris == init + [jobSkillUris[|jobSkillUris| - 1]];
    }
  }

  /** A URI is matched exactly when the seeker has it and missing exactly
      when the seeker lacks it. */
  lemma {:induction false} ClassifiedMembers(jobSkillUris: seq<string>, seekerSet: set<string>)
    ensures forall u :: u in Matched(jobSkillUris, seekerSet) <==> u in jobSkillUris && u in seekerSet
    ensures forall u :: u in Missing(jobSkillUris, seekerSet) <==> u in jobSkillUris && u !in seekerSet
  {
    if jobSkillUris != [] {
      var init := jobSkillUris[..|jobSkillUris| - 1];
      ClassifiedMembers(init, seekerSet);
      assert jobSkillUris == init + [jobSkillUris[|jobSkillUris| - 1]];
    }
  }

  /** Each list keeps the job's order: classifying two runs of URIs one after
      the other gives the two results one after the other. */
  lemma {:induction false} ClassifyConcat(a: seq<string>, b: seq<string>, seekerSet: set<string>)
    ensures Matched(a + b, seekerSet) == Matched(a, seekerSet) + Matched(b, seekerSet)
    ensures Missing(a + b, seekerSet) == Missing(a, seekerSet) + Missing(b, seekerSet)
    decreases |b|
  {
    if b == [] {
      assert a + b == a;
    } else {
      var b' := b[..|b| - 1];
      assert (a + b)[..|a + b| - 1] == a + b';
      assert (a + b)[|a + b| - 1] == b[|b| - 1];
      ClassifyConcat(a, b', seekerSet);
    }
  }

  /** Duplicates in the job list are classified once per occurrence: each
      URI occurs in the matched list as often as in the job list when the
      seeker has it, and never otherwise; the missing list the other way
      round. */
  lemma OccurrencesKept(jobSkillUris: seq<string>, seekerSet: set<string>, u: string)
    ensures multiset(Matched(jobSkillUris, seekerSet))[u]
      == if u in seekerSet then multiset(jobSkillUris)[u] else 0
    ensures multiset(Missing(jobSkillUris, seekerSet))[u]
      == if u in seekerSet then 0 else multiset(jobSkillUris)[u]
  {
    PartitionSizes(jobSkillUris, seekerSet);
    ClassifiedMembers(jobSkillUris, seekerSet);
    if u in seekerSet {
      assert u !in Missing(jobSkillUris, seekerSet);
    } else {
      assert u !in Matched(jobSkillUris, seekerSet);
    }
  }

  /** Only the set of the seeker's URIs matters, not their order or
      repetitions. */
  lemma SeekerOrderIrrelevant(
    seekerA: seq<string>, seekerB: seq<string>, jobSkillUris: seq<string>,
    seekerTitleMap: map<string, string>, jobTitleMap: map<string, string>)
    requires forall u :: u in seekerA <==> u in seekerB
    ensures Match(seekerA, jobSkillUris, seekerTitleMap, jobTitleMap)
      == Match(seekerB, jobSkillUris, seekerTitleMap, jobTitleMap)
  {
    assert (set u | u in seekerA) == (set u | u in seekerB);
  }

  /** A job without skills scores zero and has empty lists. */
  lemma EmptyJob(seekerSkillUris: seq<string>, seekerTitleMap: map<string, string>, jobTitleMap: map<string, string>)
    ensures var r := Match(seekerSkillUris, [], seekerTitleMap, jobTitleMap);
      r.matchScore == 0 && r.matchedSkills == [] && r.missingSkills == []
      && r.matchedTitles == [] && r.missingTitles == []
  {
  }

  /** The score is the rounded percentage: within one half of
      100 * |matched| / |job|, halves going up. */
  lemma ScoreIsRoundedShare(
    seekerSkillUris: seq<string>, jobSkillUris: seq<string>,
    seekerTitleMap: map<string, string>, jobTitleMap: map<string, string>)
    requires jobSkillUris != []
    ensures var r := Match(seekerSkillUris, jobSkillUris, seekerTitleMap, jobTitleMap);
      var n := |jobSkillUris|;
      2 * n * r.matchScore <= 200 * |r.matchedSkills| + n < 2 * n * (r.matchScore + 1)
  {
  }

  /** Everything matched scores 100; nothing matched scores 0. */
  lemma ScoreExtremes(matched: nat, total: nat)
    requires 0 < total && matched <= total
    ensures matched == total ==> RoundedPercent(matched, total) == 100
    ensures matched == 0 ==> RoundedPercent(matched, total) == 0
  {
    var s := RoundedPercent(matched, total);
    if matched == total {
      if s < 100 {
        MulLeq(s + 1, 100, 2 * total);
      }
    }
    if matched == 0 {
      if s > 0 {
        MulLeq(1, s, 2 * total);
      }
    }
  }

  /** When the seeker has every job URI, all are matched; when none, all
      are missing. */
  lemma {:induction false} ClassifyAllOrNone(jobSkillUris: seq<string>, seekerSet: set<string>)
    ensures (forall i :: 0 <= i < |jobSkillUris| ==> jobSkillUris[i] in seekerSet) ==>
      Matched(jobSkillUris, seekerSet) == jobSkillUris && Missing(jobSkillUris, seekerSet) == []
    ensures (forall i :: 0 <= i < |jobSkillUris| ==> jobSkillUris[i] !in seekerSet) ==>
      Matched(jobSkillUris, seekerSet) == [] && Missing(jobSkillUris, seekerSet) == jobSkillUris
  {
    if jobSkillUris != [] {
      var n := |jobSkillUris| - 1;
      ClassifyAllOrNone(jobSkillUris[..n], seekerSet);
      assert jobSkillUris[..n] + [jobSkillUris[n]] == jobSkillUris;
    }
  }

  /** A seeker who has every job skill scores 100 with nothing missing. */
  lemma FullOverlap(
    seekerSkillUris: seq<string>, jobSkillUris: seq<string>,
    seekerTitleMap: map<string, string>, jobTitleMap: map<string, string>)
    requires jobSkillUris != []
    requires forall u :: u in jobSkillUris ==> u in seekerSkillUris
    ensures var r := Match(seekerSkillUris, jobSkillUris, seekerTitleMap, jobTitleMap);
      r.matchScore == 100 && r.matchedSkills == jobSkillUris && r.missingSkills == []
  {
    var seekerSet := set u | u in seekerSkillUris;
    assert forall i :: 0 <= i < |jobSkillUris| ==> jobSkillUris[i] in seekerSet;
    ClassifyAllOrNone(jobSkillUris, seekerSet);
    ScoreExtremes(|jobSkillUris|, |jobSkillUris|);
  }

  /** A seeker who has none of the job skills scores 0 with nothing matched. */
  lemma NoOverlap(
    seekerSkillUris: seq<string>, jobSkillUris: seq<string>,
    seekerTitleMap: map<string, string>, jobTitleMap: map<string, string>)
    requires jobSkillUris != []
    requires forall u :: u in jobSkillUris ==> u !in seekerSkillUris
    ensures var r := Match(seekerSkillUris, jobSkillUris, seekerTitleMap, jobTitleMap);
      r.matchScore == 0 && r.matchedSkills == [] && r.missingSkills == jobSkillUris
  {
    var seekerSet := set u | u in seekerSkillUris;
    assert forall i :: 0 <= i < |jobSkillUris| ==> jobSkillUris[i] !in seekerSet;
    ClassifyAllOrNone(jobSkillUris, seekerSet);
    ScoreExtremes(0, |jobSkillUris|);
  }

  /** With fewer than 200 job skills the converse holds too: 100 only when
      everything matched, 0 only when nothing did. */
  lemma ScoreExtremesConverse(matched: nat, total: nat)
    requires 0 < total < 200 && matched <= total
    ensures RoundedPercent(matched, total) == 100 ==> matched == total
    ensures RoundedPercent(matched, total) == 0 ==> matched == 0
  {
    var s := RoundedPercent(matched, total);
    if s == 100 {
      assert 200 * (total - matched) <= total;
    }
    if s == 0 {
      assert 200 * matched + total < 2 * total;
    }
  }

  /** At 200 job skills one missing skill still rounds up to 100 (99.5), and
      at 201 one matched skill still rounds down to 0 (about 0.4975). */
  lemma ScoreExtremesNotExact()
    ensures RoundedPercent(199, 200) == 100
    ensures RoundedPercent(1, 201) == 0
  {
  }

  /** A matched skill's title comes from the job's titles when it has a
      non-empty one, else from the seeker's titles when non-empty, else it
      is the URI itself; a missing skill's title never looks at the
      seeker's titles. */
  lemma TitleResolution(
    seekerSkillUris: seq<string>, jobSkillUris: seq<string>,
    seekerTitleMap: map<string, string>, jobTitleMap: map<string, string>)
    ensures var r := Match(seekerSkillUris, jobSkillUris, seekerTitleMap, jobTitleMap);
      |r.matchedTitles| == |r.matchedSkills| && |r.missingTitles| == |r.missingSkills|
      && (forall i :: 0 <= i < |r.matchedSkills| ==>
            var u := r.matchedSkills[i];
            r.matchedTitles[i] ==
              if u in jobTitleMap && jobTitleMap[u] != "" then jobTitleMap[u]
              else if u in seekerTitleMap && seekerTitleMap[u] != "" then seekerTitleMap[u]
              else u)
      && (forall i :: 0 <= i < |r.missingSkills| ==>
            var u := r.missingSkills[i];
            r.missingTitles[i] == if u in jobTitleMap && jobTitleMap[u] != "" then jobTitleMap[u] else u)
  {
  }

  /** The seeker's titles have no influence on the missing skills' titles. */
  lemma MissingTitlesIgnoreSeekerTitles(
    seekerSkillUris: seq<string>, jobSkillUris: seq<string>,
    seekerTitlesA: map<string, string>, seekerTitlesB: map<string, string>, jobTitleMap: map<string, string>)
    ensures Match(seekerSkillUris, jobSkillUris, seekerTitlesA, jobTitleMap).missingTitles
      == Match(seekerSkillUris, jobSkillUris, seekerTitlesB, jobTitleMap).missingTitles
  {
  }

  /** A title is never empty unless the URI itself is. */
  lemma TitlesNonEmpty(
    seekerSkillUris: seq<string>, jobSkillUris: seq<string>,
    seekerTitleMap: map<string, string>, jobTitleMap: map<string, string>)
    requires "" !in jobSkillUris
    ensures var r := Match(seekerSkillUris, jobSkillUris, seekerTitleMap, jobTitleMap);
      (forall i :: 0 <= i < |r.matchedTitles| ==> r.matchedTitles[i] != "")
      && (forall i :: 0 <= i < |r.missingTitles| ==> r.missingTitles[i] != "")
  {
    var seekerSet := set u | u in seekerSkillUris;
    ClassifiedMembers(jobSkillUris, seekerSet);
    var matched := Matched(jobSkillUris, seekerSet);
    var missing := Missing(jobSkillUris, seekerSet);
    assert forall i :: 0 <= i < |matched| ==> matched[i] in jobSkillUris;
    assert forall i :: 0 <= i < |missing| ==> missing[i] in jobSkillUris;
  }
}
