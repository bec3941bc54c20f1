/**
 * Suggestions from a reference perfume (app.py:80-130): find the selected perfume, sort
 * its similarity row by score (highest first, ties in catalog order), drop the first
 * sorted entry, and walk the rest, skipping the reference itself, perfumes of an
 * incompatible sex and scores of 0.1 or less, until five suggestions are shown.
 */
module Ranker {
  import opened Wrappers
  import opened Catalog
  import Vectors

  /** One entry of `enumerate(similarity[idx])`: a catalog position and its score. */
  datatype Scored = Scored(index: nat, score: real)

  /** The colour shown before a suggestion's score. */
  datatype Tier = Green | Orange | Red

  /** One suggestion as shown: the perfume's position, its score and its colour. */
  datatype Suggestion = Suggestion(index: nat, score: real, tier: Tier)

  /** The walk stops once this many suggestions are shown. */
  const MaxSuggestions: nat := 5

  /** The colour of a score, and no colour (the candidate is skipped) at 0.1 or below. */
  function TierOf(score: real): (r: Option<Tier>)
    ensures r == Some(Green) <==> score > 0.5
    ensures r == Some(Orange) <==> 0.3 < score <= 0.5
    ensures r == Some(Red) <==> 0.1 < score <= 0.3
    ensures r == None <==> score <= 0.1
  {
    if score > 0.5 then Some(Green)
    else if score > 0.3 then Some(Orange)
    else if score > 0.1 then Some(Red)
    else None
  }

  /** Whether a candidate of sex `sex` may follow a reference of sex `refSex`. */
  predicate SexCompatible(refSex: string, sex: string) {
    if refSex == "Homme" then sex == "Homme" || sex == "Mixte"
    else if refSex == "Femme" then sex == "Femme" || sex == "Mixte"
    else true
  }

  /**
   * A Homme reference admits only Homme and Mixte, a Femme reference only Femme and
   * Mixte, and any other reference, "" included, admits every sex.
   */
  lemma SexRule(refSex: string, sex: string)
    ensures SexCompatible(refSex, sex) <==>
              && (refSex == "Homme" ==> sex in {"Homme", "Mixte"})
              && (refSex == "Femme" ==> sex in {"Femme", "Mixte"})
  {
  }

  // ---------------------------------------------------------------------------------
  // `sorted(enumerate(row), key=score, reverse=True)`
  // ---------------------------------------------------------------------------------

  function Enumerate(row: seq<real>): (r: seq<Scored>)
    ensures |r| == |row|
    ensures forall k :: 0 <= k < |r| ==> r[k] == Scored(k, row[k])
  {
    seq(|row|, k requires 0 <= k < |row| => Scored(k, row[k]))
  }

  /** `a` comes before `b`: a higher score, or an equal score and an earlier position. */
  predicate Before(a: Scored, b: Scored) {
    a.score > b.score || (a.score == b.score && a.index < b.index)
  }

  lemma BeforeAsymmetric(a: Scored, b: Scored)
    ensures !(Before(a, b) && Before(b, a))
  {
  }

  predicate Ordered(s: seq<Scored>) {
    forall i, j :: 0 <= i < j < |s| ==> Before(s[i], s[j])
  }

  predicate DistinctIndices(s: seq<Scored>) {
    forall i, j :: 0 <= i < j < |s| ==> s[i].index != s[j].index
  }

  lemma OrderedCons(h: Scored, t: seq<Scored>)
    requires Ordered(t) && forall k :: 0 <= k < |t| ==> Before(h, t[k])
    ensures Ordered([h] + t)
  {
    var s := [h] + t;
    forall i, j | 0 <= i < j < |s| ensures Before(s[i], s[j]) {
      assert s[j] == t[j - 1];
      if i > 0 {
        assert s[i] == t[i - 1];
      }
    }
  }

  /** Puts `x` into an ordered sequence that has no entry at its position. */
  function Insert(x: Scored, s: seq<Scored>): (r: seq<Scored>)
    requires Ordered(s)
    requires forall k :: 0 <= k < |s| ==> s[k].index != x.index
    ensures Ordered(r)
    ensures multiset(r) == multiset(s) + multiset{x}
  {
    if |s| == 0 then [x]
    else if Before(x, s[0]) then [x] + s
    else
      assert s == [s[0]] + s[1..];
      var t := Insert(x, s[1..]);
      assert forall k :: 0 <= k < |t| ==> Before(s[0], t[k]) by {
        forall k | 0 <= k < |t| ensures Before(s[0], t[k]) {
          assert t[k] in multiset(t);
        }
      }
      OrderedCons(s[0], t);
      [s[0]] + t
  }

  /** A stable sort by descending score: insertion keeps earlier positions first on ties. */
  function SortDescending(s: seq<Scored>): (r: seq<Scored>)
    requires DistinctIndices(s)
    ensures Ordered(r)
    ensures multiset(r) == multiset(s)
  {
    if |s| == 0 then []
    else
      assert s == [s[0]] + s[1..];
      var t := SortDescending(s[1..]);
      assert forall k :: 0 <= k < |t| ==> t[k].index != s[0].index by {
        forall k | 0 <= k < |t| ensures t[k].index != s[0].index {
          assert t[k] in multiset(s[1..]);
        }
      }
      Insert(s[0], t)
  }

  /** `scores`: the similarity row with positions, best first. */
  function Ranked(row: seq<real>): (r: seq<Scored>)
    ensures Ordered(r)
    ensures multiset(r) == multiset(Enumerate(row))
  {
    SortDescending(Enumerate(row))
  }

  /**
   * The ranking lists every position of the row exactly once with its own score, best
   * first, equal scores in position order.
   */
  lemma RankedSpec(row: seq<real>)
    ensures |Ranked(row)| == |row|
    ensures Ordered(Ranked(row)) && DistinctIndices(Ranked(row))
    ensures forall k :: 0 <= k < |row| ==>
              Ranked(row)[k].index < |row| && Ranked(row)[k].score == row[Ranked(row)[k].index]
    ensures forall j :: 0 <= j < |row| ==> Scored(j, row[j]) in Ranked(row)
  {
    var e, r := Enumerate(row), Ranked(row);
    assert |r| == |row| by {
      assert |multiset(r)| == |multiset(e)|;
    }
    forall k | 0 <= k < |r| ensures r[k].index < |row| && r[k].score == row[r[k].index] {
      assert r[k] in multiset(e);
    }
    forall j | 0 <= j < |row| ensures Scored(j, row[j]) in r {
      assert e[j] in multiset(r);
    }
    forall i, j | 0 <= i < j < |r| ensures r[i].index != r[j].index {
      assert Before(r[i], r[j]);
    }
  }

  // ---------------------------------------------------------------------------------
  // The walk over the sorted candidates.
  // ---------------------------------------------------------------------------------

  predicate InCatalog(cands: seq<Scored>, n: nat) {
    forall k :: 0 <= k < |cands| ==> cands[k].index < n
  }

  /** What the walk does with one candidate: skip it, or show it with its colour. */
  function Judge(c: Scored, ps: seq<Perfume>, reference: nat): (r: Option<Suggestion>)
    requires reference < |ps| && c.index < |ps|
    ensures r.Some? <==> c.index != reference && SexCompatible(ps[reference].sex, ps[c.index].sex) && c.score > 0.1
    ensures r.Some? ==> AsScored(r.value) == c && TierOf(c.score) == Some(r.value.tier)
  {
    if c.index == reference then None
    else if !SexCompatible(ps[reference].sex, ps[c.index].sex) then None
    else match TierOf(c.score)
      case None => None
      case Some(t) => Some(Suggestion(c.index, c.score, t))
  }

  /** The position and score of a suggestion, without its colour. */
  function AsScored(s: Suggestion): Scored {
    Scored(s.index, s.score)
  }

  function Shown(o: Option<Suggestion>): seq<Suggestion> {
    match o
    case None => []
    case Some(s) => [s]
  }

  /** Every candidate that passes, in candidate order, without any cap. */
  function Accepted(cands: seq<Scored>, ps: seq<Perfume>, reference: nat): seq<Suggestion>
    requires reference < |ps| && InCatalog(cands, |ps|)
  {
    if |cands| == 0 then []
    else Shown(Judge(cands[0], ps, reference)) + Accepted(cands[1..], ps, reference)
  }

  /** The first `n` elements, or all of them when there are fewer. */
  function Take<T>(s: seq<T>, n: nat): (r: seq<T>)
    ensures |r| <= n && |r| <= |s|
    ensures |s| <= n ==> r == s
    ensures |s| > n ==> r == s[..n]
  {
    if |s| <= n then s else s[..n]
  }

  /** `scores[1:]`. */
  function DropFirst<T>(s: seq<T>): seq<T> {
    if |s| == 0 then [] else s[1..]
  }

  lemma {:induction false} AcceptedAppend(a: seq<Scored>, b: seq<Scored>, ps: seq<Perfume>, reference: nat)
    requires reference < |ps| && InCatalog(a, |ps|) && InCatalog(b, |ps|)
    ensures InCatalog(a + b, |ps|)
    ensures Accepted(a + b, ps, reference) == Accepted(a, ps, reference) + Accepted(b, ps, reference)
  {
    if |a| > 0 {
      assert (a + b)[1..] == a[1..] + b;
      AcceptedAppend(a[1..], b, ps, reference);
    } else {
      assert a + b == b;
    }
  }

  /** Once the candidates up to `k` give five suggestions, the later ones change nothing. */
  lemma TakeFilled(cands: seq<Scored>, k: nat, ps: seq<Perfume>, reference: nat)
    requires reference < |ps| && InCatalog(cands, |ps|) && k <= |cands|
    requires |Accepted(cands[..k], ps, reference)| == MaxSuggestions
    ensures Take(Accepted(cands, ps, reference), MaxSuggestions) == Accepted(cands[..k], ps, reference)
  {
    assert cands == cands[..k] + cands[k..];
    AcceptedAppend(cands[..k], cands[k..], ps, reference);
  }

  /**
   * The loop of app.py:94-130 over the given candidates. It shows exactly the first five
   * of the candidates that pass the walk's tests: a skipped candidate never counts.
   */
  method Suggest(candidates: seq<Scored>, ps: seq<Perfume>, reference: nat) returns (shown: seq<Suggestion>)
    requires reference < |ps| && InCatalog(candidates, |ps|)
    ensures shown == Take(Accepted(candidates, ps, reference), MaxSuggestions)
  {
    var refSex := ps[reference].sex;
    var count := 0;
    shown := [];
    var k := 0;
    while k < |candidates|
      invariant 0 <= k <= |candidates|
      invariant shown == Accepted(candidates[..k], ps, reference)
      invariant count == |shown| < MaxSuggestions
    {
      var c := candidates[k];
      k := k + 1;
      assert candidates[..k] == candidates[..k - 1] + [c];
      AcceptedAppend(candidates[..k - 1], [c], ps, reference);
      assert Accepted([c], ps, reference) == Shown(Judge(c, ps, reference));
      if c.index == reference {
        continue;
      }
      var sex := ps[c.index].sex;
      if refSex == "Homme" && !(sex == "Homme" || sex == "Mixte") {
        continue;
      } else if refSex == "Femme" && !(sex == "Femme" || sex == "Mixte") {
        continue;
      }
      var tier: Tier;
      if c.score > 0.5 {
        tier := Green;
      } else if c.score > 0.3 {
        tier := Orange;
      } else if c.score > 0.1 {
        tier := Red;
      } else {
        continue;
      }
      shown := shown + [Suggestion(c.index, c.score, tier)];
      count := count + 1;
      if count >= MaxSuggestions {
        TakeFilled(candidates, k, ps, reference);
        break;
      }
    }
    if k == |candidates| && count < MaxSuggestions {
      assert candidates[..k] == candidates;
    }
  }

  /** The entries behind the first sorted one are drawn from the row, in the catalog and ordered. */
  lemma TailFromRow(row: seq<real>)
    ensures var cands := DropFirst(Ranked(row));
            FromRow(cands, row) && InCatalog(cands, |row|) && Ordered(cands)
  {
    RankedSpec(row);
    TailOf(Ranked(row), row);
  }

  lemma TailOf(s: seq<Scored>, row: seq<real>)
    requires Ordered(s) && FromRow(s, row)
    ensures FromRow(DropFirst(s), row) && InCatalog(DropFirst(s), |row|) && Ordered(DropFirst(s))
  {
    if |s| > 0 {
      var t := s[1..];
      assert forall k :: 0 <= k < |t| ==> t[k] == s[k + 1];
    }
  }

  /**
   * The suggestions the page shows for reference `reference`, as written: at most five,
   * best first with equal scores in catalog order, each admissible.
   */
  function TopSuggestions(row: seq<real>, ps: seq<Perfume>, reference: nat): (r: seq<Suggestion>)
    requires |row| == |ps| && reference < |ps|
    ensures |r| <= MaxSuggestions && OrderedSuggestions(r)
    ensures forall k :: 0 <= k < |r| ==> Admissible(r[k], row, ps, reference)
  {
    TailFromRow(row);
    AcceptedOrdered(DropFirst(Ranked(row)), ps, reference);
    AcceptedAdmissible(DropFirst(Ranked(row)), row, ps, reference);
    Take(Accepted(DropFirst(Ranked(row)), ps, reference), MaxSuggestions)
  }

  /** The first position whose label is `selected` (`df[df["Affichage"] == s].index[0]`). */
  function FirstIndexOf(labels: seq<string>, selected: string): (r: Option<nat>)
    ensures r.None? <==> selected !in labels
    ensures r.Some? ==> r.value < |labels| && labels[r.value] == selected
                        && forall j :: 0 <= j < r.value ==> labels[j] != selected
  {
    if |labels| == 0 then None
    else if labels[0] == selected then Some(0)
    else match FirstIndexOf(labels[1..], selected)
      case None => None
      case Some(i) => Some(i + 1)
  }

  /**
   * A later perfume with the same label as an earlier one is never the reference: the
   * first of them is chosen.
   */
  lemma ShadowedLabel(labels: seq<string>, i: nat, j: nat)
    requires i < j < |labels| && labels[i] == labels[j]
    ensures FirstIndexOf(labels, labels[j]) != Some(j)
  {
  }

  /**
   * Reference mode: no suggestions at all when the selection is not a label; otherwise
   * those of the first perfume with that label, from its row of the similarity matrix.
   */
  method ReferenceMode(c: Collection, sim: seq<seq<real>>, selected: string) returns (r: Option<seq<Suggestion>>)
    requires |sim| == |c.perfumes|
    requires forall i :: 0 <= i < |sim| ==> |sim[i]| == |c.perfumes|
    ensures r.None? <==> selected !in Labels(c)
    ensures r.Some? ==> var idx := FirstIndexOf(Labels(c), selected).value;
                        r.value == TopSuggestions(sim[idx], c.perfumes, idx)
    ensures r.Some? ==> var idx := FirstIndexOf(Labels(c), selected).value;
                        Ranked(sim[idx])[0].index == idx ==> r.value == IntendedSuggestions(sim[idx], c.perfumes, idx)
  {
    var found := FirstIndexOf(Labels(c), selected);
    if found.None? {
      return None;
    }
    var idx := found.value;
    var scores := Ranked(sim[idx]);
    RankedSpec(sim[idx]);
    var shown := Suggest(DropFirst(scores), c.perfumes, idx);
    if scores[0].index == idx {
      HeadIsReference(sim[idx], c.perfumes, idx);
    }
    r := Some(shown);
  }

  lemma {:induction false} AcceptedFrom(cands: seq<Scored>, ps: seq<Perfume>, reference: nat, s: Suggestion)
    requires reference < |ps| && InCatalog(cands, |ps|)
    requires s in Accepted(cands, ps, reference)
    ensures exists k :: 0 <= k < |cands| && Judge(cands[k], ps, reference) == Some(s)
  {
    if s !in Shown(Judge(cands[0], ps, reference)) {
      AcceptedFrom(cands[1..], ps, reference, s);
      var k :| 0 <= k < |cands| - 1 && Judge(cands[1..][k], ps, reference) == Some(s);
      assert cands[k + 1] == cands[1..][k];
    }
  }

  lemma {:induction false} AcceptedHas(cands: seq<Scored>, ps: seq<Perfume>, reference: nat, m: nat)
    requires reference < |ps| && InCatalog(cands, |ps|) && m < |cands|
    requires Judge(cands[m], ps, reference).Some?
    ensures Judge(cands[m], ps, reference).value in Accepted(cands, ps, reference)
  {
    if m > 0 {
      AcceptedHas(cands[1..], ps, reference, m - 1);
    }
  }

  /** Suggestions ordered as their candidates were. */
  predicate OrderedSuggestions(r: seq<Suggestion>) {
    forall i, j :: 0 <= i < j < |r| ==> Before(AsScored(r[i]), AsScored(r[j]))
  }

  lemma {:induction false} AcceptedOrdered(cands: seq<Scored>, ps: seq<Perfume>, reference: nat)
    requires reference < |ps| && InCatalog(cands, |ps|) && Ordered(cands)
    ensures OrderedSuggestions(Accepted(cands, ps, reference))
  {
    if |cands| > 0 {
      var rest := Accepted(cands[1..], ps, reference);
      AcceptedOrdered(cands[1..], ps, reference);
      var j := Judge(cands[0], ps, reference);
      if j.Some? {
        forall k | 0 <= k < |rest| ensures Before(cands[0], AsScored(rest[k])) {
          AcceptedFrom(cands[1..], ps, reference, rest[k]);
          var m :| 0 <= m < |cands| - 1 && Judge(cands[1..][m], ps, reference) == Some(rest[k]);
          assert cands[1..][m] == cands[m + 1];
        }
      }
    }
  }

  /**
   * Over ordered candidates, a candidate that passes is shown, unless five suggestions
   * are shown, all ranked before it.
   */
  lemma TakeAcceptedComplete(cands: seq<Scored>, ps: seq<Perfume>, reference: nat, m: nat)
    requires reference < |ps| && InCatalog(cands, |ps|) && Ordered(cands) && m < |cands|
    requires Judge(cands[m], ps, reference).Some?
    ensures var r := Take(Accepted(cands, ps, reference), MaxSuggestions);
            (exists k :: 0 <= k < |r| && r[k].index == cands[m].index)
            || (|r| == MaxSuggestions && forall k :: 0 <= k < |r| ==> Before(AsScored(r[k]), cands[m]))
  {
    var a := Accepted(cands, ps, reference);
    var x := Judge(cands[m], ps, reference).value;
    AcceptedHas(cands, ps, reference, m);
    AcceptedOrdered(cands, ps, reference);
    var r := Take(a, MaxSuggestions);
    if x in r {
      var k :| 0 <= k < |r| && r[k] == x;
      assert r[k].index == cands[m].index;
    } else {
      var p :| 0 <= p < |a| && a[p] == x;
      assert |a| > MaxSuggestions && p >= MaxSuggestions;
      assert forall k :: 0 <= k < |r| ==> r[k] == a[k];
    }
  }

  /**
   * What the page promises of one suggestion for reference `reference`: another
   * perfume, with its own score from the row, of a sex compatible with the reference's,
   * scoring above 0.1 and coloured by its score.
   */
  predicate Admissible(s: Suggestion, row: seq<real>, ps: seq<Perfume>, reference: nat)
    requires |row| == |ps| && reference < |ps|
  {
    var refSex := ps[reference].sex;
    && s.index < |ps|
    && s.index != reference
    && s.score == row[s.index]
    && (refSex == "Homme" ==> ps[s.index].sex in {"Homme", "Mixte"})
    && (refSex == "Femme" ==> ps[s.index].sex in {"Femme", "Mixte"})
    && s.score > 0.1
    && (s.tier == Green <==> s.score > 0.5)
    && (s.tier == Orange <==> 0.3 < s.score <= 0.5)
    && (s.tier == Red <==> 0.1 < s.score <= 0.3)
  }

  lemma JudgeAdmissible(c: Scored, row: seq<real>, ps: seq<Perfume>, reference: nat)
    requires |row| == |ps| && reference < |ps| && c.index < |ps| && c.score == row[c.index]
    requires Judge(c, ps, reference).Some?
    ensures Admissible(Judge(c, ps, reference).value, row, ps, reference)
  {
  }

  /** Candidates drawn from `row`: each with a position of the row and that position's score. */
  predicate FromRow(cands: seq<Scored>, row: seq<real>) {
    forall k :: 0 <= k < |cands| ==> cands[k].index < |row| && cands[k].score == row[cands[k].index]
  }

  lemma AcceptedAdmissible(cands: seq<Scored>, row: seq<real>, ps: seq<Perfume>, reference: nat)
    requires |row| == |ps| && reference < |ps| && FromRow(cands, row)
    ensures forall k :: 0 <= k < |Accepted(cands, ps, reference)| ==>
              Admissible(Accepted(cands, ps, reference)[k], row, ps, reference)
  {
    var a := Accepted(cands, ps, reference);
    forall k | 0 <= k < |a| ensures Admissible(a[k], row, ps, reference) {
      AcceptedFrom(cands, ps, reference, a[k]);
      var m :| 0 <= m < |cands| && Judge(cands[m], ps, reference) == Some(a[k]);
      JudgeAdmissible(cands[m], row, ps, reference);
    }
  }

  /**
   * The suggestions with the first sorted entry kept, so that only the reference is left
   * out: at most five, best first with equal scores in catalog order, each admissible.
   */
  function IntendedSuggestions(row: seq<real>, ps: seq<Perfume>, reference: nat): (r: seq<Suggestion>)
    requires |row| == |ps| && reference < |ps|
    ensures |r| <= MaxSuggestions && OrderedSuggestions(r)
    ensures forall k :: 0 <= k < |r| ==> Admissible(r[k], row, ps, reference)
  {
    RankedSpec(row);
    AcceptedOrdered(Ranked(row), ps, reference);
    AcceptedAdmissible(Ranked(row), row, ps, reference);
    Take(Accepted(Ranked(row), ps, reference), MaxSuggestions)
  }

  /** No suggestion shown is the first sorted entry, whether or not that is the reference. */
  lemma TopSuggestionsSkipHead(row: seq<real>, ps: seq<Perfume>, reference: nat)
    requires |row| == |ps| && reference < |ps|
    ensures forall k :: 0 <= k < |TopSuggestions(row, ps, reference)| ==>
              TopSuggestions(row, ps, reference)[k].index != Ranked(row)[0].index
  {
    RankedSpec(row);
    var sorted := Ranked(row);
    var cands := DropFirst(sorted);
    var a := Accepted(cands, ps, reference);
    var r := TopSuggestions(row, ps, reference);
    forall k | 0 <= k < |r| ensures r[k].index != sorted[0].index {
      assert r[k] == a[k];
      AcceptedFrom(cands, ps, reference, r[k]);
      var m :| 0 <= m < |cands| && Judge(cands[m], ps, reference) == Some(r[k]);
      assert cands[m] == sorted[m + 1];
    }
  }

  /** Behind the first sorted entry: still ordered, in the catalog, and holding every other position. */
  lemma RankedTail(row: seq<real>, j: nat)
    requires j < |row| && j != Ranked(row)[0].index
    ensures var cands := DropFirst(Ranked(row));
            && InCatalog(cands, |row|) && Ordered(cands)
            && exists p :: 0 <= p < |cands| && cands[p] == Scored(j, row[j])
  {
    RankedSpec(row);
    var sorted := Ranked(row);
    var cands := DropFirst(sorted);
    var p :| 0 <= p < |sorted| && sorted[p] == Scored(j, row[j]);
    assert cands == sorted[1..];
    assert cands[p - 1] == sorted[p];
  }

  /**
   * A perfume that passes the walk's tests and is not the first sorted entry is shown,
   * unless five suggestions were shown and all of them rank before it: skipped
   * candidates never use up one of the five places.
   */
  lemma TopSuggestionsComplete(row: seq<real>, ps: seq<Perfume>, reference: nat, j: nat)
    requires |row| == |ps| && reference < |ps| && j < |row|
    requires j != reference && SexCompatible(ps[reference].sex, ps[j].sex) && row[j] > 0.1
    requires j != Ranked(row)[0].index
    ensures var r := TopSuggestions(row, ps, reference);
            (exists k :: 0 <= k < |r| && r[k].index == j)
            || (|r| == MaxSuggestions && forall k :: 0 <= k < |r| ==> Before(AsScored(r[k]), Scored(j, row[j])))
  {
    RankedTail(row, j);
    var cands := DropFirst(Ranked(row));
    var p :| 0 <= p < |cands| && cands[p] == Scored(j, row[j]);
    TakeAcceptedComplete(cands, ps, reference, p);
  }

  /**
   * With the first sorted entry kept, every passing perfume other than the reference
   * is shown, unless five suggestions were shown and all rank before it.
   */
  lemma IntendedSuggestionsComplete(row: seq<real>, ps: seq<Perfume>, reference: nat, j: nat)
    requires |row| == |ps| && reference < |ps| && j < |row|
    requires j != reference && SexCompatible(ps[reference].sex, ps[j].sex) && row[j] > 0.1
    ensures var r := IntendedSuggestions(row, ps, reference);
            (exists k :: 0 <= k < |r| && r[k].index == j)
            || (|r| == MaxSuggestions && forall k :: 0 <= k < |r| ==> Before(AsScored(r[k]), Scored(j, row[j])))
  {
    RankedSpec(row);
    var sorted := Ranked(row);
    var p :| 0 <= p < |sorted| && sorted[p] == Scored(j, row[j]);
    TakeAcceptedComplete(sorted, ps, reference, p);
  }

  /** When the reference is first in the ranking, dropping the first sorted entry only drops the reference. */
  lemma HeadIsReference(row: seq<real>, ps: seq<Perfume>, reference: nat)
    requires |row| == |ps| && reference < |ps|
    requires |row| > 0 && Ranked(row)[0].index == reference
    ensures TopSuggestions(row, ps, reference) == IntendedSuggestions(row, ps, reference)
  {
    RankedSpec(row);
    var sorted := Ranked(row);
    assert sorted == [sorted[0]] + sorted[1..];
    assert Accepted(sorted, ps, reference) == Accepted(sorted[1..], ps, reference);
  }

  /**
   * When the reference is first in the ranking, dropping the first sorted entry only
   * drops the reference, and the page shows the intended suggestions. That is the case
   * when every other perfume scores lower, or equal and later in the catalog.
   */
  lemma AsWrittenAgrees(row: seq<real>, ps: seq<Perfume>, reference: nat)
    requires |row| == |ps| && reference < |ps|
    requires forall j :: 0 <= j < |row| && j != reference ==> Before(Scored(reference, row[reference]), Scored(j, row[j]))
    ensures Ranked(row)[0].index == reference
    ensures TopSuggestions(row, ps, reference) == IntendedSuggestions(row, ps, reference)
  {
    RankedSpec(row);
    var sorted := Ranked(row);
    var p :| 0 <= p < |sorted| && sorted[p] == Scored(reference, row[reference]);
    BeforeAsymmetric(sorted[0], sorted[p]);
    assert p == 0;
    HeadIsReference(row, ps, reference);
  }

  /** Two perfumes with the same profile fields have the same profile, whatever the labels. */
  lemma TwinProfiles(p: Perfume, q: Perfume, labelled: bool)
    requires ProfileFields(p) == ProfileFields(q)
    ensures Profiles(Collection([p, q], labelled)) == [Profile(p), Profile(p)]
  {
  }

  /**
   * Two perfumes with the same profile, when it has a token, get the all-ones matrix
   * as their catalog's own similarity.
   */
  lemma TwinSimilarity(p: Perfume, q: Perfume, labelled: bool)
    requires ProfileFields(p) == ProfileFields(q) && Vectors.Tokenize(Profile(p)) != []
    ensures Vectors.IsSimilarity([[1.0, 1.0], [1.0, 1.0]],
              Vectors.CountMatrix(Profiles(Collection([p, q], labelled))),
              |Vectors.Terms(Profiles(Collection([p, q], labelled)))|)
  {
    TwinProfiles(p, q, labelled);
    Vectors.OnesSimilarity(Profiles(Collection([p, q], labelled)), [[1.0, 1.0], [1.0, 1.0]]);
  }

  /** A tie keeps catalog order: the row [1.0, 1.0] ranks position 0 first. */
  lemma TiedRanking()
    ensures Ranked([1.0, 1.0]) == [Scored(0, 1.0), Scored(1, 1.0)]
  {
    var e := Enumerate([1.0, 1.0]);
    assert e == [Scored(0, 1.0), Scored(1, 1.0)];
    assert e[1..] == [Scored(1, 1.0)];
    assert SortDescending(e[1..]) == [Scored(1, 1.0)] by {
      assert e[1..][1..] == [];
    }
  }

  /**
   * On the row [1.0, 1.0] with the second perfume chosen, the first one sorts ahead of
   * the reference, so `scores[1:]` drops the best match and the reference is skipped:
   * nothing is shown, where the intended ranking shows the first perfume in green.
   */
  lemma TiedWalk(p: Perfume, q: Perfume)
    requires SexCompatible(q.sex, p.sex)
    ensures TopSuggestions([1.0, 1.0], [p, q], 1) == []
    ensures IntendedSuggestions([1.0, 1.0], [p, q], 1) == [Suggestion(0, 1.0, Green)]
  {
    TiedRanking();
    assert Accepted([Scored(1, 1.0)], [p, q], 1) == [];
    assert Accepted([Scored(0, 1.0), Scored(1, 1.0)], [p, q], 1) == [Suggestion(0, 1.0, Green)] by {
      assert [Scored(0, 1.0), Scored(1, 1.0)][1..] == [Scored(1, 1.0)];
    }
  }

  /**
   * Whatever matrix of cosines a catalog of two perfumes with the same profile gets,
   * the second one's row is [1.0, 1.0]; when the first may be shown beside it, the page
   * shows nothing for the second, and the intended ranking shows the first.
   */
  lemma TwinRow(p: Perfume, q: Perfume, labelled: bool, sim: seq<seq<real>>)
    requires ProfileFields(p) == ProfileFields(q) && Vectors.Tokenize(Profile(p)) != []
    requires SexCompatible(q.sex, p.sex)
    requires Vectors.IsSimilarity(sim, Vectors.CountMatrix(Profiles(Collection([p, q], labelled))),
               |Vectors.Terms(Profiles(Collection([p, q], labelled)))|)
    ensures sim[1] == [1.0, 1.0]
    ensures TopSuggestions(sim[1], [p, q], 1) == []
    ensures IntendedSuggestions(sim[1], [p, q], 1) == [Suggestion(0, 1.0, Green)]
  {
    var docs := Profiles(Collection([p, q], labelled));
    TwinProfiles(p, q, labelled);
    Vectors.TwinsScoreOne(docs, sim, 1, 0);
    Vectors.CatalogSimilarity(docs, sim, 1);
    assert sim[1] == [1.0, 1.0];
    TiedWalk(p, q);
  }

  /**
   * Counterexample: two "Mixte" perfumes with the profile "Boisé" / "Cèdre". The
   * all-ones matrix is their catalog's own similarity, and choosing the second one the
   * page shows nothing, where the intended ranking shows the first perfume in green.
   */
  lemma EarlierTwinDropped()
    ensures var p := Perfume("1", "A", "X", "Mixte", "Boisé", "", "", "Cèdre", "", "", "", "", "");
            var q := Perfume("2", "B", "X", "Mixte", "Boisé", "", "", "Cèdre", "", "", "", "", "");
            && Vectors.IsSimilarity([[1.0, 1.0], [1.0, 1.0]],
                 Vectors.CountMatrix(Profiles(Collection([p, q], true))),
                 |Vectors.Terms(Profiles(Collection([p, q], true)))|)
            && TopSuggestions([1.0, 1.0], [p, q], 1) == []
            && IntendedSuggestions([1.0, 1.0], [p, q], 1) == [Suggestion(0, 1.0, Green)]
  {
    var p := Perfume("1", "A", "X", "Mixte", "Boisé", "", "", "Cèdre", "", "", "", "", "");
    var q := Perfume("2", "B", "X", "Mixte", "Boisé", "", "", "Cèdre", "", "", "", "", "");
    Vectors.FamilyToken(p);
    TwinSimilarity(p, q, true);
    TiedWalk(p, q);
  }

  /**
   * On the page's own similarity matrix, dropping the first sorted entry drops only the
   * reference, unless an earlier perfume scores exactly 1.0 against it (an earlier
   * perfume with the same token counts, up to a factor): the reference's own score is
   * 1.0, the highest there is, and ties go to the earlier position.
   */
  lemma SelfRankedFirst(docs: seq<string>, sim: seq<seq<real>>, ps: seq<Perfume>, reference: nat)
    requires Vectors.IsSimilarity(sim, Vectors.CountMatrix(docs), |Vectors.Terms(docs)|)
    requires |docs| == |ps| && reference < |ps|
    requires Vectors.Tokenize(docs[reference]) != []
    requires forall j :: 0 <= j < reference ==> sim[reference][j] != 1.0
    ensures Ranked(sim[reference])[0].index == reference
    ensures TopSuggestions(sim[reference], ps, reference) == IntendedSuggestions(sim[reference], ps, reference)
  {
    var x: seq<seq<int>> := Vectors.CountMatrix(docs);
    var row := sim[reference];
    assert forall k :: 0 <= k < |x| ==> Vectors.NonNegative(x[k]);
    Vectors.CatalogSimilarity(docs, sim, reference);
    forall j | 0 <= j < |row| && j != reference
      ensures Before(Scored(reference, row[reference]), Scored(j, row[j]))
    {
      Vectors.SimilaritySpec(sim, x, |Vectors.Terms(docs)|, reference, j);
    }
    AsWrittenAgrees(row, ps, reference);
  }

  /**
   * A perfume whose nine profile cells are all empty is never suggested, whichever
   * perfume is the reference: it scores 0 against every one of them.
   */
  lemma BlankNeverSuggested(c: Collection, sim: seq<seq<real>>, reference: nat, i: nat)
    requires Vectors.IsSimilarity(sim, Vectors.CountMatrix(Profiles(c)), |Vectors.Terms(Profiles(c))|)
    requires reference < |c.perfumes| && i < |c.perfumes|
    requires forall k :: 0 <= k < 9 ==> ProfileFields(c.perfumes[i])[k] == ""
    ensures forall k :: 0 <= k < |TopSuggestions(sim[reference], c.perfumes, reference)| ==>
              TopSuggestions(sim[reference], c.perfumes, reference)[k].index != i
    ensures forall k :: 0 <= k < |IntendedSuggestions(sim[reference], c.perfumes, reference)| ==>
              IntendedSuggestions(sim[reference], c.perfumes, reference)[k].index != i
  {
    Vectors.BlankPerfumeScoresZero(c, sim, i);
    assert sim[reference][i] == 0.0;
  }
}
