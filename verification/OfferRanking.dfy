/** Best-match ranking of riders' offers (packages/shared/src/offer-ranking.ts), in exact reals. */
module OfferRanking {
  import opened Reals

  datatype Offer = Offer(fare: Number, rating: Number, ratingCount: int, eta: Number)

  datatype Weights = Weights(price: real, rating: real, eta: real)

  datatype Ranked = Ranked(index: nat, score: real, recommended: bool)

  const NEW_RIDER_RATING_SCORE := 0.5

  // ---------------------------------------------------------------- coercing and scoring

  /** The largest finite number, or 0 if there is none. */
  function WorstFinite(nums: seq<Number>): real {
    if nums == [] then 0.0
    else
      var rest := WorstFinite(nums[1..]);
      if nums[0].NonFinite? then rest
      else if AnyFinite(nums[1..]) && rest > nums[0].value then rest
      else nums[0].value
  }

  /** A fare or eta that is not finite counts as the worst of the finite ones. */
  lemma {:induction false} WorstIsWorst(nums: seq<Number>, k: nat)
    requires k < |nums| && nums[k].Finite?
    ensures nums[k].value <= WorstFinite(nums)
    ensures exists j :: 0 <= j < |nums| && nums[j] == Finite(WorstFinite(nums))
  {
    assert forall j :: 1 <= j < |nums| ==> nums[1..][j - 1] == nums[j];
    if AnyFinite(nums[1..]) {
      var j :| 0 <= j < |nums[1..]| && nums[1..][j].Finite?;
      WorstIsWorst(nums[1..], j);
      if k > 0 { WorstIsWorst(nums[1..], k - 1); }
      var i :| 0 <= i < |nums[1..]| && nums[1..][i] == Finite(WorstFinite(nums[1..]));
      assert nums[i + 1] == nums[1..][i];
    }
  }

  predicate AnyFinite(nums: seq<Number>) {
    exists k :: 0 <= k < |nums| && nums[k].Finite?
  }

  function Coerce(n: Number, fallback: real): real {
    if n.Finite? then n.value else fallback
  }

  function Fares(offers: seq<Offer>): (s: seq<Number>)
    ensures |s| == |offers|
  {
    seq(|offers|, i requires 0 <= i < |offers| => offers[i].fare)
  }

  function Etas(offers: seq<Offer>): (s: seq<Number>)
    ensures |s| == |offers|
  {
    seq(|offers|, i requires 0 <= i < |offers| => offers[i].eta)
  }

  function Coerced(nums: seq<Number>, fallback: real): (s: seq<real>)
    ensures |s| == |nums|
  {
    seq(|nums|, i requires 0 <= i < |nums| => Coerce(nums[i], fallback))
  }

  /** What the ranking looks at: fares and etas with the worst finite value where they are not finite, raw
      ratings with 0 there, and who is rated. */
  datatype Batch = Batch(fares: seq<real>, ratings: seq<real>, etas: seq<real>, rated: seq<bool>)

  ghost predicate ValidBatch(b: Batch) {
    |b.fares| == |b.ratings| == |b.etas| == |b.rated|
  }

  function BatchOf(offers: seq<Offer>): (b: Batch)
    ensures ValidBatch(b) && |b.fares| == |offers|
  {
    Batch(Coerced(Fares(offers), WorstFinite(Fares(offers))),
          seq(|offers|, i requires 0 <= i < |offers| => Coerce(offers[i].rating, 0.0)),
          Coerced(Etas(offers), WorstFinite(Etas(offers))),
          seq(|offers|, i requires 0 <= i < |offers| => offers[i].ratingCount > 0))
  }

  function Min(s: seq<real>): (m: real)
    ensures forall k :: 0 <= k < |s| ==> m <= s[k]
    ensures s != [] ==> exists k :: 0 <= k < |s| && m == s[k]
  {
    if s == [] then 0.0
    else if |s| == 1 then s[0]
    else
      var m := Min(s[1..]);
      assert forall k :: 1 <= k < |s| ==> s[k] == s[1..][k - 1];
      if s[0] < m then s[0] else m
  }

  function Max(s: seq<real>): (m: real)
    ensures forall k :: 0 <= k < |s| ==> s[k] <= m
    ensures s != [] ==> exists k :: 0 <= k < |s| && m == s[k]
  {
    if s == [] then 0.0
    else if |s| == 1 then s[0]
    else
      var m := Max(s[1..]);
      assert forall k :: 1 <= k < |s| ==> s[k] == s[1..][k - 1];
      if s[0] > m then s[0] else m
  }

  /** The ratings of the rated. */
  function RatedOnly(ratings: seq<real>, rated: seq<bool>): (s: seq<real>)
    requires |ratings| == |rated|
    ensures forall k :: 0 <= k < |rated| && rated[k] ==> ratings[k] in s
  {
    if ratings == [] then []
    else (if rated[0] then [ratings[0]] else []) + RatedOnly(ratings[1..], rated[1..])
  }

  function Norm(value: real, min: real, max: real, lowerIsBetter: bool): real {
    if max <= min then 0.5
    else
      var t := (value - min) / (max - min);
      if lowerIsBetter then 1.0 - t else t
  }

  function PriceScore(b: Batch, i: nat): real
    requires ValidBatch(b) && i < |b.fares|
  {
    Norm(b.fares[i], Min(b.fares), Max(b.fares), true)
  }

  function EtaScore(b: Batch, i: nat): real
    requires ValidBatch(b) && i < |b.fares|
  {
    Norm(b.etas[i], Min(b.etas), Max(b.etas), true)
  }

  function RatingScore(b: Batch, i: nat): real
    requires ValidBatch(b) && i < |b.fares|
  {
    var r := RatedOnly(b.ratings, b.rated);
    if b.rated[i] then Norm(b.ratings[i], Min(r), Max(r), false) else NEW_RIDER_RATING_SCORE
  }

  function Score(b: Batch, w: Weights, i: nat): real
    requires ValidBatch(b) && i < |b.fares|
  {
    Times(w.price, PriceScore(b, i)) + Times(w.rating, RatingScore(b, i)) + Times(w.eta, EtaScore(b, i))
  }

  // ---------------------------------------------------------------- the comparator

  /** The comparator's result is negative: i is ranked before j. */
  predicate Before(b: Batch, w: Weights, i: nat, j: nat)
    requires ValidBatch(b) && i < |b.fares| && j < |b.fares|
  {
    if Score(b, w, i) != Score(b, w, j) then Score(b, w, i) > Score(b, w, j)
    else if b.fares[i] != b.fares[j] then b.fares[i] < b.fares[j]
    else if b.ratings[i] != b.ratings[j] then b.ratings[i] > b.ratings[j]
    else if b.etas[i] != b.etas[j] then b.etas[i] < b.etas[j]
    else i < j
  }

  lemma BeforeIsTotal(b: Batch, w: Weights, i: nat, j: nat)
    requires ValidBatch(b) && i < |b.fares| && j < |b.fares|
    ensures !(Before(b, w, i, j) && Before(b, w, j, i))
    ensures i != j ==> Before(b, w, i, j) || Before(b, w, j, i)
    ensures !Before(b, w, i, i)
  {}

  lemma BeforeIsTransitive(b: Batch, w: Weights, i: nat, j: nat, k: nat)
    requires ValidBatch(b) && i < |b.fares| && j < |b.fares| && k < |b.fares|
    requires Before(b, w, i, j) && Before(b, w, j, k)
    ensures Before(b, w, i, k)
  {}

  /** A ranking: every offer once, each before the ones after it. */
  ghost predicate Ranking(b: Batch, w: Weights, r: seq<nat>)
    requires ValidBatch(b)
  {
    && (forall i :: i in r <==> 0 <= i < |b.fares|)
    && SortedBy(b, w, r)
  }

  ghost predicate SortedBy(b: Batch, w: Weights, r: seq<nat>)
    requires ValidBatch(b)
  {
    && (forall k :: 0 <= k < |r| ==> r[k] < |b.fares|)
    && (forall p, q :: 0 <= p < q < |r| ==> Before(b, w, r[p], r[q]))
  }

  lemma FirstIsFirst(b: Batch, w: Weights, r: seq<nat>, s: seq<nat>)
    requires ValidBatch(b) && SortedBy(b, w, r) && SortedBy(b, w, s) && r != []
    requires forall x :: x in r <==> x in s
    ensures s != [] && r[0] == s[0]
  {
    assert r[0] in s;
    assert s[0] in r;
    BeforeIsTotal(b, w, r[0], s[0]);
  }

  lemma TailsAgree(b: Batch, w: Weights, r: seq<nat>, s: seq<nat>)
    requires ValidBatch(b) && SortedBy(b, w, r) && SortedBy(b, w, s) && r != [] && s != [] && r[0] == s[0]
    requires forall x :: x in r <==> x in s
    ensures SortedBy(b, w, r[1..]) && SortedBy(b, w, s[1..])
    ensures forall x :: x in r[1..] <==> x in s[1..]
  {
    HeadNotInTail(b, w, r);
    HeadNotInTail(b, w, s);
    forall x ensures x in r[1..] <==> x in s[1..] {
      assert x in r <==> x == r[0] || x in r[1..];
      assert x in s <==> x == s[0] || x in s[1..];
    }
  }

  lemma HeadNotInTail(b: Batch, w: Weights, r: seq<nat>)
    requires ValidBatch(b) && SortedBy(b, w, r) && r != []
    ensures r[0] !in r[1..]
  {
    BeforeIsTotal(b, w, r[0], r[0]);
  }

  /** There is one ranking only, whatever sorting algorithm finds it. */
  lemma {:induction false} RankingIsUnique(b: Batch, w: Weights, r: seq<nat>, s: seq<nat>)
    requires ValidBatch(b) && SortedBy(b, w, r) && SortedBy(b, w, s)
    requires forall x :: x in r <==> x in s
    ensures r == s
  {
    assert s != [] ==> s[0] in r;
    if r != [] {
      FirstIsFirst(b, w, r, s);
      TailsAgree(b, w, r, s);
      RankingIsUnique(b, w, r[1..], s[1..]);
    }
  }

  // ---------------------------------------------------------------- ranking

  /** One step of the sort: `i` goes before the first entry it beats. */
  method Insert(b: Batch, w: Weights, r: seq<nat>, i: nat) returns (s: seq<nat>)
    requires ValidBatch(b) && SortedBy(b, w, r) && i < |b.fares| && i !in r
    ensures SortedBy(b, w, s) && (forall x :: x in s <==> x in r || x == i) && |s| == |r| + 1
  {
    var k := 0;
    while k < |r| && Before(b, w, r[k], i)
      invariant 0 <= k <= |r|
      invariant forall p :: 0 <= p < k ==> Before(b, w, r[p], i)
    {
      k := k + 1;
    }
    s := r[..k] + [i] + r[k..];
    if k < |r| { BeforeIsTotal(b, w, i, r[k]); assert r[k] in r; }
    BeatsTheRest(b, w, r, k, i);
    InsertedIsSorted(b, w, r, k, i);
    InsertedMembers(r, k, i);
  }

  lemma BeatsTheRest(b: Batch, w: Weights, r: seq<nat>, k: nat, i: nat)
    requires ValidBatch(b) && SortedBy(b, w, r) && i < |b.fares| && k <= |r| && (k < |r| ==> Before(b, w, i, r[k]))
    ensures forall q :: k <= q < |r| ==> Before(b, w, i, r[q])
  {
    forall q | k <= q < |r| ensures Before(b, w, i, r[q]) {
      if k < q { BeforeIsTransitive(b, w, i, r[k], r[q]); }
    }
  }

  lemma InsertedMembers(r: seq<nat>, k: nat, i: nat)
    requires k <= |r|
    ensures forall x :: x in r[..k] + [i] + r[k..] <==> x in r || x == i
  {
    assert r == r[..k] + r[k..];
  }

  /** An entry of r with i put in at k. */
  function Inserted(r: seq<nat>, k: nat, i: nat, p: nat): nat
    requires k <= |r| && p <= |r|
  {
    if p < k then r[p] else if p == k then i else r[p - 1]
  }

  lemma InsertedAt(r: seq<nat>, k: nat, i: nat, p: nat)
    requires k <= |r| && p <= |r|
    ensures (r[..k] + [i] + r[k..])[p] == Inserted(r, k, i, p)
  {}

  lemma InsertedIsSorted(b: Batch, w: Weights, r: seq<nat>, k: nat, i: nat)
    requires ValidBatch(b) && SortedBy(b, w, r) && i < |b.fares| && k <= |r|
    requires forall p :: 0 <= p < k ==> Before(b, w, r[p], i)
    requires forall q :: k <= q < |r| ==> Before(b, w, i, r[q])
    ensures SortedBy(b, w, r[..k] + [i] + r[k..])
  {
    var s := r[..k] + [i] + r[k..];
    forall p: nat | p < |s| ensures s[p] == Inserted(r, k, i, p) && s[p] < |b.fares| { InsertedAt(r, k, i, p); }
    forall p: nat, q: nat | p < q < |s| ensures Before(b, w, s[p], s[q]) {
      assert Before(b, w, Inserted(r, k, i, p), Inserted(r, k, i, q));
    }
  }

  /** Every offer once, in the one order that the comparator allows; the first is recommended, and only it, when
      there is a choice. */
  method RankOffers(offers: seq<Offer>, w: Weights) returns (ranked: seq<Ranked>)
    ensures |ranked| == |offers|
    ensures var b := BatchOf(offers); Ranking(b, w, Indices(ranked))
    ensures forall k :: 0 <= k < |ranked| ==>
              ranked[k].index < |offers| && ranked[k].score == Score(BatchOf(offers), w, ranked[k].index)
              && (ranked[k].recommended <==> k == 0 && |offers| >= 2)
  {
    var b := BatchOf(offers);
    var order: seq<nat> := [];
    for i := 0 to |offers|
      invariant SortedBy(b, w, order) && |order| == i
      invariant forall x :: x in order <==> 0 <= x < i
    {
      order := Insert(b, w, order, i);
    }
    ranked := seq(|order|, k requires 0 <= k < |order| && order[k] < |b.fares| => Ranked(order[k], Score(b, w, order[k]), false));
    assert Indices(ranked) == order;
    if |ranked| >= 2 {
      ranked := ranked[0 := ranked[0].(recommended := true)];
      assert Indices(ranked) == order;
    }
  }

  function Indices(ranked: seq<Ranked>): (s: seq<nat>)
    ensures |s| == |ranked|
  {
    seq(|ranked|, k requires 0 <= k < |ranked| => ranked[k].index)
  }

  // ---------------------------------------------------------------- what the order means

  lemma QuotientMonotone(x: real, y: real, d: real)
    requires d > 0.0
    ensures x <= y ==> x / d <= y / d
    ensures x < y ==> x / d < y / d
  {}

  lemma NormMonotone(x: real, y: real, min: real, max: real)
    requires x <= y
    ensures Norm(x, min, max, true) >= Norm(y, min, max, true)
    ensures Norm(x, min, max, false) <= Norm(y, min, max, false)
  {
    if max > min { QuotientMonotone(x - min, y - min, max - min); }
  }

  lemma TimesMonotone(w: real, x: real, y: real)
    requires w >= 0.0 && x <= y
    ensures Times(w, x) <= Times(w, y)
  {}

  /** i is no worse than j on any axis, and better on one. */
  predicate Dominates(b: Batch, i: nat, j: nat)
    requires ValidBatch(b) && i < |b.fares| && j < |b.fares|
  {
    && b.fares[i] <= b.fares[j] && b.etas[i] <= b.etas[j] && b.ratings[i] >= b.ratings[j]
    && (b.fares[i] < b.fares[j] || b.etas[i] < b.etas[j] || b.ratings[i] > b.ratings[j])
  }

  predicate NonNegative(w: Weights) {
    w.price >= 0.0 && w.rating >= 0.0 && w.eta >= 0.0
  }

  lemma ScoreMonotone(b: Batch, w: Weights, i: nat, j: nat)
    requires ValidBatch(b) && i < |b.fares| && j < |b.fares| && NonNegative(w)
    requires b.fares[i] <= b.fares[j] && b.etas[i] <= b.etas[j] && RatingScore(b, i) >= RatingScore(b, j)
    ensures Score(b, w, i) >= Score(b, w, j)
  {
    NormMonotone(b.fares[i], b.fares[j], Min(b.fares), Max(b.fares));
    NormMonotone(b.etas[i], b.etas[j], Min(b.etas), Max(b.etas));
    TimesMonotone(w.price, PriceScore(b, j), PriceScore(b, i));
    TimesMonotone(w.eta, EtaScore(b, j), EtaScore(b, i));
    TimesMonotone(w.rating, RatingScore(b, j), RatingScore(b, i));
  }

  /** Dominance is respected between two rated or two unrated riders. */
  lemma DominantRanksFirst(b: Batch, w: Weights, i: nat, j: nat)
    requires ValidBatch(b) && i < |b.fares| && j < |b.fares| && NonNegative(w)
    requires b.rated[i] == b.rated[j] && Dominates(b, i, j)
    ensures Before(b, w, i, j)
  {
    var r := RatedOnly(b.ratings, b.rated);
    NormMonotone(b.ratings[j], b.ratings[i], Min(r), Max(r));
    ScoreMonotone(b, w, i, j);
  }

  /** Between a rated and an unrated rider it is respected as far as the neutral midpoint allows: on equal fares
      and etas the order is that of the rating scores, and with a positive weight of them alone. */
  lemma RatedAgainstNew(b: Batch, w: Weights, i: nat, j: nat)
    requires ValidBatch(b) && i < |b.fares| && j < |b.fares| && NonNegative(w) && w.rating > 0.0
    requires b.rated[i] && !b.rated[j] && b.fares[i] == b.fares[j] && b.etas[i] == b.etas[j]
    requires b.ratings[i] > b.ratings[j]
    ensures Before(b, w, i, j) <==> RatingScore(b, i) >= NEW_RIDER_RATING_SCORE
  {
    var x, y := RatingScore(b, i), RatingScore(b, j);
    if x > y { TimesStrict(w.rating, y, x); }
    if x < y { TimesStrict(w.rating, x, y); }
  }

  lemma TimesStrict(w: real, x: real, y: real)
    requires w > 0.0 && x < y
    ensures Times(w, x) < Times(w, y)
  {}

  // ---------------------------------------------------------------- the trade-off

  /** A difference as a share of a spread; nothing when there is no spread. */
  function Share(difference: real, spread: real): real {
    if spread > 0.0 then difference / spread else 0.0
  }

  lemma SumOfQuotients(x: real, y: real, d: real)
    requires d != 0.0
    ensures x / d - y / d == (x - y) / d
  {
    var p := Quotient(x, d);
    var q := Quotient(y, d);
    Distribute(d, p, q);
    QuotientIs(x - y, d, p - q);
  }

  lemma NormDifference(x: real, y: real, min: real, max: real)
    ensures Norm(x, min, max, true) - Norm(y, min, max, true) == Share(y - x, max - min)
    ensures Norm(x, min, max, false) - Norm(y, min, max, false) == Share(x - y, max - min)
  {
    if max > min {
      SumOfQuotients(y - min, x - min, max - min);
      SumOfQuotients(x - min, y - min, max - min);
    }
  }

  /** Half of the spread up from the least is the middle. */
  lemma NormOfMiddle(min: real, max: real)
    ensures Norm((min + max) / 2.0, min, max, false) == 0.5
  {
    if max > min { QuotientIs((min + max) / 2.0 - min, max - min, 0.5); }
  }

  /** What a rider's rating counts as: a rider without one stands in the middle of the rated ones. */
  function Standing(b: Batch, i: nat): real
    requires ValidBatch(b) && i < |b.fares|
  {
    var r := RatedOnly(b.ratings, b.rated);
    if b.rated[i] then b.ratings[i] else (Min(r) + Max(r)) / 2.0
  }

  lemma RatingScoreOfStanding(b: Batch, i: nat)
    requires ValidBatch(b) && i < |b.fares|
    ensures var r := RatedOnly(b.ratings, b.rated); RatingScore(b, i) == Norm(Standing(b, i), Min(r), Max(r), false)
  {
    var r := RatedOnly(b.ratings, b.rated);
    if !b.rated[i] { NormOfMiddle(Min(r), Max(r)); }
  }

  function PriceShare(b: Batch, i: nat, j: nat): real
    requires ValidBatch(b) && i < |b.fares| && j < |b.fares|
  {
    Share(b.fares[j] - b.fares[i], Max(b.fares) - Min(b.fares))
  }

  function RatingShare(b: Batch, i: nat, j: nat): real
    requires ValidBatch(b) && i < |b.fares| && j < |b.fares|
  {
    var r := RatedOnly(b.ratings, b.rated);
    Share(Standing(b, i) - Standing(b, j), Max(r) - Min(r))
  }

  function EtaShare(b: Batch, i: nat, j: nat): real
    requires ValidBatch(b) && i < |b.fares| && j < |b.fares|
  {
    Share(b.etas[j] - b.etas[i], Max(b.etas) - Min(b.etas))
  }

  /** What i has over j: the fare it saves, the rating it has more and the minutes it is sooner, each as a share of the
      spread among the offers and weighed by its own weight. */
  function Gain(b: Batch, w: Weights, i: nat, j: nat): real
    requires ValidBatch(b) && i < |b.fares| && j < |b.fares|
  {
    Times(w.price, PriceShare(b, i, j)) + Times(w.rating, RatingShare(b, i, j)) + Times(w.eta, EtaShare(b, i, j))
  }

  lemma PriceShareIs(b: Batch, i: nat, j: nat)
    requires ValidBatch(b) && i < |b.fares| && j < |b.fares|
    ensures PriceScore(b, i) - PriceScore(b, j) == PriceShare(b, i, j)
  {
    NormDifference(b.fares[i], b.fares[j], Min(b.fares), Max(b.fares));
  }

  lemma EtaShareIs(b: Batch, i: nat, j: nat)
    requires ValidBatch(b) && i < |b.fares| && j < |b.fares|
    ensures EtaScore(b, i) - EtaScore(b, j) == EtaShare(b, i, j)
  {
    NormDifference(b.etas[i], b.etas[j], Min(b.etas), Max(b.etas));
  }

  lemma RatingShareIs(b: Batch, i: nat, j: nat)
    requires ValidBatch(b) && i < |b.fares| && j < |b.fares|
    ensures RatingScore(b, i) - RatingScore(b, j) == RatingShare(b, i, j)
  {
    var r := RatedOnly(b.ratings, b.rated);
    RatingScoreOfStanding(b, i);
    RatingScoreOfStanding(b, j);
    NormDifference(Standing(b, i), Standing(b, j), Min(r), Max(r));
  }

  lemma ScoreDifference(b: Batch, w: Weights, i: nat, j: nat)
    requires ValidBatch(b) && i < |b.fares| && j < |b.fares|
    ensures Score(b, w, i) - Score(b, w, j) == Gain(b, w, i, j)
  {
    PriceShareIs(b, i, j);
    RatingShareIs(b, i, j);
    EtaShareIs(b, i, j);
    Distribute(w.price, PriceScore(b, i), PriceScore(b, j));
    Distribute(w.rating, RatingScore(b, i), RatingScore(b, j));
    Distribute(w.eta, EtaScore(b, i), EtaScore(b, j));
  }

  /** On equal scores: the cheaper, then the better rated, then the sooner, then the earlier in the list. */
  predicate TieBreak(b: Batch, i: nat, j: nat)
    requires ValidBatch(b) && i < |b.fares| && j < |b.fares|
  {
    || b.fares[i] < b.fares[j]
    || (b.fares[i] == b.fares[j] && b.ratings[i] > b.ratings[j])
    || (b.fares[i] == b.fares[j] && b.ratings[i] == b.ratings[j] && b.etas[i] < b.etas[j])
    || (b.fares[i] == b.fares[j] && b.ratings[i] == b.ratings[j] && b.etas[i] == b.etas[j] && i < j)
  }

  /** The order between any two offers, by what they differ in. */
  lemma OrderIs(b: Batch, w: Weights, i: nat, j: nat)
    requires ValidBatch(b) && i < |b.fares| && j < |b.fares|
    ensures Before(b, w, i, j) <==> Gain(b, w, i, j) > 0.0 || (Gain(b, w, i, j) == 0.0 && TieBreak(b, i, j))
  {
    ScoreDifference(b, w, i, j);
  }

  lemma ShareSign(difference: real, spread: real, w: real)
    requires w > 0.0 && spread > 0.0 && difference > 0.0
    ensures Times(w, Share(difference, spread)) > 0.0
  {
    QuotientMonotone(0.0, difference, spread);
    Signs(w, difference / spread);
  }

  lemma PriceAlone(b: Batch, w: real, i: nat, j: nat)
    requires ValidBatch(b) && i < |b.fares| && j < |b.fares| && w > 0.0 && b.fares[i] < b.fares[j]
    ensures Before(b, Weights(w, 0.0, 0.0), i, j)
  {
    OrderIs(b, Weights(w, 0.0, 0.0), i, j);
    ShareSign(b.fares[j] - b.fares[i], Max(b.fares) - Min(b.fares), w);
  }

  lemma RatingAlone(b: Batch, w: real, i: nat, j: nat)
    requires ValidBatch(b) && i < |b.fares| && j < |b.fares| && w > 0.0
    requires b.rated[i] && b.rated[j] && b.ratings[i] > b.ratings[j]
    ensures Before(b, Weights(0.0, w, 0.0), i, j)
  {
    var r := RatedOnly(b.ratings, b.rated);
    OrderIs(b, Weights(0.0, w, 0.0), i, j);
    ShareSign(b.ratings[i] - b.ratings[j], Max(r) - Min(r), w);
  }

  lemma EtaAlone(b: Batch, w: real, i: nat, j: nat)
    requires ValidBatch(b) && i < |b.fares| && j < |b.fares| && w > 0.0 && b.etas[i] < b.etas[j]
    ensures Before(b, Weights(0.0, 0.0, w), i, j)
  {
    OrderIs(b, Weights(0.0, 0.0, w), i, j);
    ShareSign(b.etas[j] - b.etas[i], Max(b.etas) - Min(b.etas), w);
  }

  /** Each weight is for its own axis: all of it on the price, and the cheaper offer is first, whatever the rest; on the
      eta, and the sooner is; on the rating, and the better rated is. */
  lemma WeightsAreForTheirAxes(b: Batch, w: real, i: nat, j: nat)
    requires ValidBatch(b) && i < |b.fares| && j < |b.fares| && w > 0.0
    ensures b.fares[i] < b.fares[j] ==> Before(b, Weights(w, 0.0, 0.0), i, j)
    ensures b.rated[i] && b.rated[j] && b.ratings[i] > b.ratings[j] ==> Before(b, Weights(0.0, w, 0.0), i, j)
    ensures b.etas[i] < b.etas[j] ==> Before(b, Weights(0.0, 0.0, w), i, j)
  {
    if b.fares[i] < b.fares[j] { PriceAlone(b, w, i, j); }
    if b.rated[i] && b.rated[j] && b.ratings[i] > b.ratings[j] { RatingAlone(b, w, i, j); }
    if b.etas[i] < b.etas[j] { EtaAlone(b, w, i, j); }
  }

  /** What is compared: a fare or eta as it is when finite, and otherwise the worst finite one; a rating as it is or 0.
      Only the rated define the spread of ratings. */
  lemma BatchIs(offers: seq<Offer>, i: nat)
    requires i < |offers|
    ensures var b := BatchOf(offers);
            && (offers[i].fare.Finite? ==> b.fares[i] == offers[i].fare.value)
            && (offers[i].eta.Finite? ==> b.etas[i] == offers[i].eta.value)
            && b.ratings[i] == (if offers[i].rating.Finite? then offers[i].rating.value else 0.0)
            && (b.rated[i] <==> offers[i].ratingCount > 0)
    ensures forall k :: 0 <= k < |offers| && offers[k].fare.Finite? && offers[i].fare.NonFinite? ==>
              offers[k].fare.value <= BatchOf(offers).fares[i]
    ensures forall k :: 0 <= k < |offers| && offers[k].eta.Finite? && offers[i].eta.NonFinite? ==>
              offers[k].eta.value <= BatchOf(offers).etas[i]
  {
    forall k | 0 <= k < |offers| ensures offers[k].fare.Finite? ==> offers[k].fare.value <= WorstFinite(Fares(offers)) {
      if offers[k].fare.Finite? { WorstIsWorst(Fares(offers), k); }
    }
    forall k | 0 <= k < |offers| ensures offers[k].eta.Finite? ==> offers[k].eta.value <= WorstFinite(Etas(offers)) {
      if offers[k].eta.Finite? { WorstIsWorst(Etas(offers), k); }
    }
  }

  /** Exactly the ratings of the rated count for the spread. */
  lemma {:induction false} RatedOnlyIs(ratings: seq<real>, rated: seq<bool>, x: real)
    requires |ratings| == |rated|
    ensures x in RatedOnly(ratings, rated) <==> exists k :: 0 <= k < |rated| && rated[k] && ratings[k] == x
  {
    if ratings != [] {
      RatedOnlyIs(ratings[1..], rated[1..], x);
      var tail := RatedOnly(ratings[1..], rated[1..]);
      assert x in RatedOnly(ratings, rated) <==> (rated[0] && ratings[0] == x) || x in tail;
      if k :| 0 <= k < |rated| && rated[k] && ratings[k] == x {
        if k > 0 { assert rated[1..][k - 1] && ratings[1..][k - 1] == x; }
      }
      if k :| 0 <= k < |rated[1..]| && rated[1..][k] && ratings[1..][k] == x {
        assert rated[k + 1] && ratings[k + 1] == x;
      }
    }
  }

  // ---------------------------------------------------------------- scores lie in [0, 1]

  lemma NormInRange(x: real, min: real, max: real, lower: bool)
    requires min <= x <= max
    ensures 0.0 <= Norm(x, min, max, lower) <= 1.0
  {
    if max > min {
      QuotientMonotone(0.0, x - min, max - min);
      QuotientMonotone(x - min, max - min, max - min);
      SelfQuotient(max - min);
    }
  }

  lemma SelfQuotient(d: real)
    requires d > 0.0
    ensures d / d == 1.0 && 0.0 / d == 0.0
  {}

  lemma WeightInRange(w: real, x: real)
    requires w >= 0.0 && 0.0 <= x <= 1.0
    ensures 0.0 <= Times(w, x) <= w
  {}

  /** With non-negative weights that sum to 1 every score lies in [0, 1]. */
  lemma ScoreInRange(b: Batch, w: Weights, i: nat)
    requires ValidBatch(b) && i < |b.fares| && NonNegative(w) && w.price + w.rating + w.eta == 1.0
    ensures 0.0 <= Score(b, w, i) <= 1.0
  {
    NormInRange(b.fares[i], Min(b.fares), Max(b.fares), true);
    NormInRange(b.etas[i], Min(b.etas), Max(b.etas), true);
    var r := RatedOnly(b.ratings, b.rated);
    if b.rated[i] { NormInRange(b.ratings[i], Min(r), Max(r), false); }
    WeightInRange(w.price, PriceScore(b, i));
    WeightInRange(w.rating, RatingScore(b, i));
    WeightInRange(w.eta, EtaScore(b, i));
  }

  // ---------------------------------------------------------------- rescaled fares

  function Affine(x: real, scale: real, shift: real): real {
    Times(scale, x) + shift
  }

  function RescaledFare(n: Number, scale: real, shift: real): Number {
    if n.Finite? then Finite(Affine(n.value, scale, shift)) else NonFinite
  }

  /** The same offers with every finite fare in another unit. */
  function Rescaled(offers: seq<Offer>, scale: real, shift: real): (s: seq<Offer>)
    ensures |s| == |offers|
  {
    seq(|offers|, i requires 0 <= i < |offers| => offers[i].(fare := RescaledFare(offers[i].fare, scale, shift)))
  }

  lemma AffineOrder(x: real, y: real, scale: real, shift: real)
    requires scale > 0.0
    ensures Affine(x, scale, shift) < Affine(y, scale, shift) <==> x < y
    ensures Affine(x, scale, shift) == Affine(y, scale, shift) <==> x == y
  {
    if x < y { TimesStrict(scale, x, y); }
    if y < x { TimesStrict(scale, y, x); }
  }

  ghost predicate AffineOf(s: seq<real>, t: seq<real>, scale: real, shift: real) {
    |s| == |t| && forall k :: 0 <= k < |s| ==> t[k] == Affine(s[k], scale, shift)
  }

  lemma {:induction false} WorstRescales(s: seq<Number>, t: seq<Number>, scale: real, shift: real)
    requires scale > 0.0 && |s| == |t| && forall k :: 0 <= k < |s| ==> t[k] == RescaledFare(s[k], scale, shift)
    ensures AnyFinite(t) == AnyFinite(s)
    ensures AnyFinite(s) ==> WorstFinite(t) == Affine(WorstFinite(s), scale, shift)
  {
    assert forall k :: 0 <= k < |s| ==> t[k].Finite? == s[k].Finite?;
    if s != [] {
      WorstRescales(s[1..], t[1..], scale, shift);
      TailFinite(s);
      if s[0].Finite? { AffineOrder(s[0].value, WorstFinite(s[1..]), scale, shift); }
    }
  }

  lemma TailFinite(s: seq<Number>)
    requires s != []
    ensures AnyFinite(s) <==> s[0].Finite? || AnyFinite(s[1..])
  {
    if k :| 0 <= k < |s| && s[k].Finite? {
      if k > 0 { assert s[1..][k - 1].Finite?; }
    }
  }

  lemma ExtremesRescale(s: seq<real>, t: seq<real>, scale: real, shift: real)
    requires scale > 0.0 && s != [] && AffineOf(s, t, scale, shift)
    ensures Min(t) == Affine(Min(s), scale, shift) && Max(t) == Affine(Max(s), scale, shift)
  {
    var k :| 0 <= k < |s| && Min(s) == s[k];
    var l :| 0 <= l < |t| && Min(t) == t[l];
    AffineOrder(s[l], s[k], scale, shift);
    var m :| 0 <= m < |s| && Max(s) == s[m];
    var n :| 0 <= n < |t| && Max(t) == t[n];
    AffineOrder(s[m], s[n], scale, shift);
  }

  lemma RatioRescales(x: real, y: real, scale: real)
    requires scale > 0.0 && y > 0.0
    ensures Times(scale, y) > 0.0 && Times(scale, x) / Times(scale, y) == x / y
  {
    var q := x / y;
    assert x == Times(q, y);
    assert Times(scale, Times(q, y)) == Times(q, Times(scale, y));
    QuotientIs(Times(scale, x), Times(scale, y), q);
  }

  lemma NormRescales(x: real, min: real, max: real, scale: real, shift: real, lower: bool)
    requires scale > 0.0
    ensures Norm(Affine(x, scale, shift), Affine(min, scale, shift), Affine(max, scale, shift), lower) == Norm(x, min, max, lower)
  {
    AffineOrder(min, max, scale, shift);
    if max > min {
      RatioRescales(x - min, max - min, scale);
      assert Times(scale, x - min) == Affine(x, scale, shift) - Affine(min, scale, shift);
      assert Times(scale, max - min) == Affine(max, scale, shift) - Affine(min, scale, shift);
    }
  }

  /** The rescaled batch has affine fares, or the same ones if no fare was finite. */
  lemma BatchRescales(offers: seq<Offer>, scale: real, shift: real)
    requires scale > 0.0
    ensures var b, c := BatchOf(offers), BatchOf(Rescaled(offers, scale, shift));
            && c.ratings == b.ratings && c.etas == b.etas && c.rated == b.rated
            && (AffineOf(b.fares, c.fares, scale, shift) || c.fares == b.fares)
  {
    var s, t := Fares(offers), Fares(Rescaled(offers, scale, shift));
    WorstRescales(s, t, scale, shift);
    assert Etas(Rescaled(offers, scale, shift)) == Etas(offers);
    var b, c := BatchOf(offers), BatchOf(Rescaled(offers, scale, shift));
    assert c.ratings == b.ratings && c.rated == b.rated;
    if !AnyFinite(s) {
      NoFinite(s);
      NoFinite(t);
      assert c.fares == b.fares;
    }
  }

  lemma {:induction false} NoFinite(s: seq<Number>)
    requires !AnyFinite(s)
    ensures WorstFinite(s) == 0.0 && forall k :: 0 <= k < |s| ==> Coerced(s, 0.0)[k] == 0.0
  {
    if s != [] {
      TailFinite(s);
      NoFinite(s[1..]);
    }
  }

  lemma ScoreRescales(b: Batch, c: Batch, w: Weights, scale: real, shift: real, i: nat)
    requires ValidBatch(b) && ValidBatch(c) && i < |b.fares| && scale > 0.0
    requires c.ratings == b.ratings && c.etas == b.etas && c.rated == b.rated && AffineOf(b.fares, c.fares, scale, shift)
    ensures Score(c, w, i) == Score(b, w, i)
  {
    ExtremesRescale(b.fares, c.fares, scale, shift);
    NormRescales(b.fares[i], Min(b.fares), Max(b.fares), scale, shift, true);
  }

  /** Fares in another unit (any positive affine map of the finite ones) leave the comparator, and so the
      ranking, as it was. */
  lemma RescalingKeepsTheOrder(offers: seq<Offer>, w: Weights, scale: real, shift: real, r: seq<nat>)
    requires scale > 0.0
    ensures Ranking(BatchOf(Rescaled(offers, scale, shift)), w, r) <==> Ranking(BatchOf(offers), w, r)
  {
    var b, c := BatchOf(offers), BatchOf(Rescaled(offers, scale, shift));
    BatchRescales(offers, scale, shift);
    if c.fares != b.fares {
      forall i: nat, j: nat | i < |offers| && j < |offers| ensures Before(c, w, i, j) == Before(b, w, i, j) {
        ScoreRescales(b, c, w, scale, shift, i);
        ScoreRescales(b, c, w, scale, shift, j);
        AffineOrder(b.fares[i], b.fares[j], scale, shift);
      }
    }
  }
}
