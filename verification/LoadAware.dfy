/** The `loadaware` placement score, and what choosing its maximum guarantees. */
module LoadAware {
  import opened PyDict
  import opened Sorting
  import opened Sums
  import opened RealFacts

  datatype EngineLoad = EngineLoad(inPrefill: nat, inDecoding: nat)

  /** `request_stats`, keyed by engine URL. */
  type Stats = map<string, EngineLoad>

  /** `load_penalty`: a URL the stats do not know has served nothing. */
  function Load(stats: Stats, url: string): nat {
    if url in stats then stats[url].inPrefill + stats[url].inDecoding else 0
  }

  /** The keys of a dict built from `urls`: each once, in order of first appearance. */
  function Distinct(urls: seq<string>): (r: seq<string>)
    ensures NoDuplicates(r) && forall u :: u in r <==> u in urls
    ensures r == [] <==> urls == []
  {
    if urls == [] then []
    else
      var n := |urls| - 1;
      var before := Distinct(urls[..n]);
      assert urls == urls[..n] + [urls[n]];
      if urls[n] in before then before else before + [urls[n]]
  }

  function Total(stats: Stats, urls: seq<string>): int {
    if urls == [] then 0 else Load(stats, urls[0]) + Total(stats, urls[1..])
  }

  /** Everything one placement decision looks at. `matched` is keyed by URL. */
  datatype Request = Request(
    endpoints: seq<string>, stats: Stats, matched: map<string, nat>, promptTokens: nat, beta: real) {

    function Fleet(): seq<string> {
      Distinct(endpoints)
    }

    function Mean(): real
      requires endpoints != []
    {
      Total(stats, Fleet()) as real / |Fleet()| as real
    }

    function Scale(): (s: real)
      requires endpoints != []
      ensures s >= 1.0 && s >= Mean()
    {
      MaxReal(1.0, Mean())
    }

    function LoadOf(url: string): real {
      Load(stats, url) as real
    }

    /** `relative_loads(...)[url]`. */
    function RelativeLoad(url: string): real
      requires endpoints != []
    {
      (LoadOf(url) - Mean()) / Scale()
    }

    function Matched(url: string): nat {
      if url in matched then matched[url] else 0
    }

    function Benefit(url: string): (b: real)
      ensures 0.0 <= b <= 1.0
    {
      var tokens := if Matched(url) < promptTokens then Matched(url) else promptTokens;
      var whole := if promptTokens < 1 then 1 else promptTokens;
      FractionBounds(tokens, whole);
      tokens as real / whole as real
    }

    /** `score_endpoint`. */
    function Score(url: string): real
      requires endpoints != []
    {
      Benefit(url) - beta * RelativeLoad(url)
    }
  }

  lemma FractionBounds(tokens: nat, whole: nat)
    requires tokens <= whole && whole > 0
    ensures 0.0 <= tokens as real / whole as real <= 1.0
    ensures tokens as real / whole as real == 1.0 <==> tokens == whole
  {
  }

  /** The cached fraction: a match as long as the prompt or longer counts as a full hit, an empty prompt as none. */
  lemma {:induction false} BenefitReadings(q: Request, url: string)
    ensures q.promptTokens == 0 ==> q.Benefit(url) == 0.0
    ensures q.promptTokens > 0 && q.Matched(url) >= q.promptTokens ==> q.Benefit(url) == 1.0
    ensures q.promptTokens > 0 && q.Matched(url) < q.promptTokens ==>
            q.Benefit(url) * q.promptTokens as real == q.Matched(url) as real && q.Benefit(url) < 1.0
  {
    if q.promptTokens > 0 {
      var tokens := if q.Matched(url) < q.promptTokens then q.Matched(url) else q.promptTokens;
      FractionBounds(tokens, q.promptTokens);
      QuotientTimes(tokens as real, q.promptTokens as real);
    }
  }

  /** On a busy fleet 0 is average, 1 twice that and -1 idle; on a near-idle one the gap to the mean counts raw. */
  lemma {:induction false} RelativeLoadReadings(q: Request, url: string)
    requires q.endpoints != []
    ensures q.Mean() <= 1.0 ==> q.RelativeLoad(url) == q.LoadOf(url) - q.Mean()
    ensures q.Mean() >= 1.0 ==>
      && (q.RelativeLoad(url) == 0.0 <==> q.LoadOf(url) == q.Mean())
      && (q.RelativeLoad(url) == 1.0 <==> q.LoadOf(url) == 2.0 * q.Mean())
      && (q.RelativeLoad(url) == -1.0 <==> q.LoadOf(url) == 0.0)
  {
    var gap, s := q.LoadOf(url) - q.Mean(), q.Scale();
    assert q.Mean() <= 1.0 ==> s == 1.0;
    assert q.Mean() >= 1.0 ==> s == q.Mean();
    assert q.RelativeLoad(url) == gap / s;
    hide Request.Mean, Request.Scale, Request.LoadOf, Request.RelativeLoad;
    QuotientTimes(gap, s);
    if gap == s { SameQuotient(gap, s, 1.0); }
    if gap == -s { SameQuotient(gap, s, -1.0); }
    if gap == 0.0 { SameQuotient(gap, s, 0.0); }
  }

  /** The policy's promise: the lexicographically least URL among those of maximal score. */
  ghost predicate IsChoice(q: Request, url: string) {
    && url in q.endpoints
    && forall v :: v in q.endpoints ==> q.Score(v) <= q.Score(url) && (q.Score(v) == q.Score(url) ==> StrLe(url, v))
  }

  lemma {:induction false} ChoiceUnique(q: Request, u: string, v: string)
    requires IsChoice(q, u) && IsChoice(q, v)
    ensures u == v
  {
    StrLeAntisymmetric(u, v);
  }

  /** The exchange rate: one score is at least another exactly when the cache advantage pays for the load gap. */
  lemma {:induction false} ScoreOrder(q: Request, u: string, v: string)
    requires q.endpoints != []
    ensures q.Score(v) <= q.Score(u) <==>
            q.beta * (q.LoadOf(u) - q.LoadOf(v)) <= (q.Benefit(u) - q.Benefit(v)) * q.Scale()
  {
    hide Request.Benefit, Request.Mean, Request.Scale, Request.LoadOf;
    BenefitAndScale(q, u);
    Exchange(q.Benefit(u), q.Benefit(v), q.LoadOf(u), q.LoadOf(v), q.Mean(), q.Scale(), q.beta);
  }

  lemma RelativeTimesScale(q: Request, u: string)
    requires q.endpoints != []
    ensures q.RelativeLoad(u) * q.Scale() == q.LoadOf(u) - q.Mean()
  {
    QuotientTimes(q.LoadOf(u) - q.Mean(), q.Scale());
  }

  /** The documented rule without the mean: benefit minus beta times load over the clamped mean. */
  function SimpleScore(q: Request, url: string): real
    requires q.endpoints != []
  {
    q.Benefit(url) - q.beta * (q.LoadOf(url) / q.Scale())
  }

  ghost predicate IsSimpleChoice(q: Request, url: string) {
    && url in q.endpoints
    && forall v :: v in q.endpoints ==>
         SimpleScore(q, v) <= SimpleScore(q, url) && (SimpleScore(q, v) == SimpleScore(q, url) ==> StrLe(url, v))
  }

  lemma SimpleShift(q: Request, u: string)
    requires q.endpoints != []
    ensures SimpleScore(q, u) == q.Score(u) - q.beta * (q.Mean() / q.Scale())
  {
    QuotientDifference(q.LoadOf(u), q.Mean(), q.Scale());
  }

  lemma {:induction false} SimplerRule(q: Request, url: string)
    ensures IsChoice(q, url) <==> IsSimpleChoice(q, url)
  {
    if url in q.endpoints {
      SimpleShift(q, url);
      forall v | v in q.endpoints { SimpleShift(q, v); }
    }
  }

  lemma {:induction false} DistinctPermutation(a: seq<string>, b: seq<string>)
    requires forall u :: u in a <==> u in b
    ensures multiset(Distinct(a)) == multiset(Distinct(b))
  {
    forall u ensures multiset(Distinct(a))[u] == multiset(Distinct(b))[u] {
      OnceInMultiset(Distinct(a), u);
      OnceInMultiset(Distinct(b), u);
    }
  }

  lemma {:induction false} OnceInMultiset<T(!new)>(s: seq<T>, x: T)
    requires NoDuplicates(s)
    ensures multiset(s)[x] == if x in s then 1 else 0
  {
    if s != [] {
      TailNoDuplicates(s);
      OnceInMultiset(s[1..], x);
      assert s == [s[0]] + s[1..];
    }
  }

  lemma {:induction false} TotalSplit(stats: Stats, us: seq<string>, i: nat)
    requires i < |us|
    ensures Total(stats, us) == Load(stats, us[i]) + Total(stats, us[..i] + us[i + 1..])
  {
    if i > 0 {
      TotalSplit(stats, us[1..], i - 1);
      assert (us[..i] + us[i + 1..])[1..] == us[1..][..i - 1] + us[1..][i..];
    } else {
      assert us[..0] + us[1..] == us[1..];
    }
  }

  lemma {:induction false} TotalPermutation(stats: Stats, a: seq<string>, b: seq<string>)
    requires multiset(a) == multiset(b)
    ensures Total(stats, a) == Total(stats, b) && |a| == |b|
    decreases |a|
  {
    assert |multiset(a)| == |a| && |multiset(b)| == |b|;
    if a != [] {
      var i := SplitAtHead(a, b);
      TotalPermutation(stats, a[1..], b[..i] + b[i + 1..]);
      TotalSplit(stats, b, i);
    }
  }

  lemma MeanOrderFree(q: Request, endpoints: seq<string>)
    requires q.endpoints != [] && forall u :: u in endpoints <==> u in q.endpoints
    ensures endpoints != [] && q.(endpoints := endpoints).Mean() == q.Mean()
  {
    assert q.endpoints[0] in endpoints;
    DistinctPermutation(q.endpoints, endpoints);
    TotalPermutation(q.stats, Distinct(q.endpoints), Distinct(endpoints));
  }

  lemma ScoreFromMean(q: Request, r: Request, v: string)
    requires q.endpoints != [] && r.endpoints != [] && q.Mean() == r.Mean()
    requires q.stats == r.stats && q.beta == r.beta && q.matched == r.matched && q.promptTokens == r.promptTokens
    ensures q.Score(v) == r.Score(v)
  {
    hide Request.Mean;
  }

  /** The decision does not depend on the order, or on repeats, of the endpoint list. */
  lemma {:induction false} OrderIndependent(q: Request, endpoints: seq<string>, url: string)
    requires forall u :: u in endpoints <==> u in q.endpoints
    ensures IsChoice(q, url) <==> IsChoice(q.(endpoints := endpoints), url)
  {
    var r := q.(endpoints := endpoints);
    if url in q.endpoints {
      MeanOrderFree(q, endpoints);
      hide Request.Score, Request.Mean, Request.Scale, StrLe;
      forall v ensures q.Score(v) == r.Score(v) { ScoreFromMean(q, r, v); }
    }
  }

  ghost predicate LoadsScaled(q: Request, stats: Stats, k: real) {
    forall u :: u in q.endpoints ==> Load(stats, u) as real == k * q.LoadOf(u)
  }

  lemma ScaledAt(q: Request, stats: Stats, k: real, u: string)
    requires LoadsScaled(q, stats, k) && u in q.endpoints
    ensures Load(stats, u) as real == k * q.LoadOf(u) && q.LoadOf(u) == Load(q.stats, u) as real
  {
  }

  lemma TotalUnfold(stats: Stats, us: seq<string>)
    ensures Total(stats, us) == if us == [] then 0 else Load(stats, us[0]) + Total(stats, us[1..])
  {
  }

  lemma AddScaled(l': int, t': int, l: int, t: int, k: real)
    requires l' as real == k * l as real && t' as real == k * t as real
    ensures (l' + t') as real == k * (l + t) as real
  {
    Distribute(l as real, t as real, k);
  }

  lemma {:induction false} TotalScaled(q: Request, stats: Stats, k: real, us: seq<string>)
    requires LoadsScaled(q, stats, k) && forall u :: u in us ==> u in q.endpoints
    ensures Total(stats, us) as real == k * Total(q.stats, us) as real
  {
    hide Load, Total, Request.LoadOf, LoadsScaled;
    TotalUnfold(stats, us);
    TotalUnfold(q.stats, us);
    if us != [] {
      var u, rest := us[0], us[1..];
      assert u in q.endpoints;
      ScaledAt(q, stats, k, u);
      TotalScaled(q, stats, k, rest);
      AddScaled(Load(stats, u), Total(stats, rest), Load(q.stats, u), Total(q.stats, rest), k);
    }
  }

  /** On a busy fleet, multiplying every load by `k` is the same policy. */
  lemma {:induction false} ScaleInvariant(q: Request, stats: Stats, k: real, url: string)
    requires q.endpoints != [] && k > 0.0 && q.Mean() >= 1.0 && k * q.Mean() >= 1.0
    requires LoadsScaled(q, stats, k)
    ensures IsChoice(q, url) <==> IsChoice(q.(stats := stats), url)
  {
    var r := q.(stats := stats);
    TotalScaled(q, stats, k, q.Fleet());
    MeanScaled(q, r, k);
    ScaleWhenBusy(q);
    ScaleWhenBusy(r);
    forall u | u in q.endpoints ensures r.Score(u) == q.Score(u) {
      ScoreScaled(q, r, k, u);
    }
  }

  lemma ScoreScaled(q: Request, r: Request, k: real, u: string)
    requires q.endpoints == r.endpoints != [] && k > 0.0 && q.beta == r.beta && r.Benefit(u) == q.Benefit(u)
    requires r.Mean() == k * q.Mean() && r.Scale() == k * q.Scale() && r.LoadOf(u) == k * q.LoadOf(u)
    ensures r.Score(u) == q.Score(u)
  {
    hide Request.Mean, Request.Scale, Request.Benefit, Request.LoadOf;
    Distribute(q.LoadOf(u), q.Mean(), k);
    QuotientScaled(q.LoadOf(u) - q.Mean(), q.Scale(), k);
  }

  lemma MeanIs(q: Request)
    requires q.endpoints != []
    ensures q.Mean() == Total(q.stats, q.Fleet()) as real / |q.Fleet()| as real
  {
  }

  lemma ScaleWhenBusy(q: Request)
    requires q.endpoints != [] && q.Mean() >= 1.0
    ensures q.Scale() == q.Mean()
  {
  }

  lemma {:induction false} MeanScaled(q: Request, r: Request, k: real)
    requires q.endpoints == r.endpoints != [] && k > 0.0
    requires Total(r.stats, q.Fleet()) as real == k * Total(q.stats, q.Fleet()) as real
    ensures r.Mean() == k * q.Mean()
  {
    assert |q.Fleet()| > 0 && r.Fleet() == q.Fleet();
    MeanIs(q);
    MeanIs(r);
    hide *;
    MeanRatio(Total(q.stats, q.Fleet()) as real, Total(r.stats, q.Fleet()) as real, |q.Fleet()| as real, k);
  }

  lemma {:induction false} LoadBelowTotal(stats: Stats, us: seq<string>, u: string)
    requires u in us
    ensures 0 <= Load(stats, u) <= Total(stats, us)
  {
    if u != us[0] {
      LoadBelowTotal(stats, us[1..], u);
    } else {
      TotalNonnegative(stats, us[1..]);
    }
  }

  lemma {:induction false} TotalNonnegative(stats: Stats, us: seq<string>)
    ensures Total(stats, us) >= 0
  {
    if us != [] {
      TotalNonnegative(stats, us[1..]);
    }
  }

  lemma {:induction false} MeanTimesSize(q: Request)
    requires q.endpoints != []
    ensures q.Mean() * |q.Fleet()| as real == Total(q.stats, q.Fleet()) as real
    ensures q.Mean() >= 0.0
  {
    assert |q.Fleet()| > 0;
    hide Distinct, Request.Mean;
    TotalNonnegative(q.stats, q.Fleet());
    MeanIs(q);
    QuotientTimes(Total(q.stats, q.Fleet()) as real, |q.Fleet()| as real);
    QuotientNonnegative(Total(q.stats, q.Fleet()) as real, |q.Fleet()| as real);
  }

  function RelativeSum(q: Request, us: seq<string>): real
    requires q.endpoints != []
  {
    if us == [] then 0.0 else q.RelativeLoad(us[0]) + RelativeSum(q, us[1..])
  }

  lemma {:induction false} RelativeSumIs(q: Request, us: seq<string>)
    requires q.endpoints != []
    ensures RelativeSum(q, us) * q.Scale() == Total(q.stats, us) as real - |us| as real * q.Mean()
  {
    hide Request.RelativeLoad, Request.Mean, Request.Scale;
    if us != [] {
      RelativeSumIs(q, us[1..]);
      RelativeTimesScale(q, us[0]);
      var rest, m := |us[1..]| as real, q.Mean();
      Distribute(q.RelativeLoad(us[0]), RelativeSum(q, us[1..]), q.Scale());
      assert |us| as real == rest + 1.0;
      Distribute(rest, 1.0, m);
    }
  }

  lemma FleetLoad(q: Request, url: string)
    requires url in q.endpoints
    ensures 0.0 <= q.LoadOf(url) <= Total(q.stats, q.Fleet()) as real && |q.Fleet()| >= 1
    ensures q.RelativeLoad(url) == (q.LoadOf(url) - q.Mean()) / q.Scale()
  {
    LoadBelowTotal(q.stats, q.Fleet(), url);
    hide Request.Mean, Request.Scale;
  }

  /** Relative loads sum to zero over the fleet, and each lies in `[-1, n - 1]`. */
  lemma RelativeLoadBounds(q: Request, url: string)
    requires url in q.endpoints
    ensures RelativeSum(q, q.Fleet()) == 0.0
    ensures -1.0 <= q.RelativeLoad(url) <= |q.Fleet()| as real - 1.0
  {
    hide *;
    MeanTimesSize(q);
    RelativeSumIs(q, q.Fleet());
    FleetLoad(q, url);
    BenefitAndScale(q, url);
    RelativeBounds(q.LoadOf(url), q.Mean(), q.Scale(), |q.Fleet()| as real);
    ZeroProduct(RelativeSum(q, q.Fleet()), q.Scale());
  }

  lemma ZeroProduct(x: real, s: real)
    requires x * s == 0.0 && s > 0.0
    ensures x == 0.0
  {
  }

  lemma ChoiceScores(q: Request, chosen: string, v: string)
    requires IsChoice(q, chosen) && v in q.endpoints
    ensures q.endpoints != [] && chosen in q.endpoints && q.Score(v) <= q.Score(chosen)
    ensures q.Benefit(v) - q.beta * q.RelativeLoad(v) <= q.Benefit(chosen) - q.beta * q.RelativeLoad(chosen)
  {
    hide Request.Benefit, Request.RelativeLoad;
  }

  lemma BenefitAndScale(q: Request, u: string)
    requires q.endpoints != []
    ensures 0.0 <= q.Benefit(u) <= 1.0 && q.Scale() >= 1.0 && q.Scale() >= q.Mean()
  {
  }

  /** Locality floor: the chosen engine's cached fraction is within `beta * n` of the best one's. */
  lemma {:induction false} LocalityFloor(q: Request, chosen: string, v: string)
    requires IsChoice(q, chosen) && v in q.endpoints && q.beta >= 0.0
    ensures q.Benefit(chosen) >= q.Benefit(v) - q.beta * |q.Fleet()| as real
  {
    hide *;
    ChoiceScores(q, chosen, v);
    RelativeLoadBounds(q, chosen);
    RelativeLoadBounds(q, v);
    FloorFromScores(q.Benefit(chosen), q.Benefit(v), q.RelativeLoad(chosen), q.RelativeLoad(v), q.beta,
                    |q.Fleet()| as real);
  }

  lemma FloorFromScores(bc: real, bv: real, rc: real, rv: real, beta: real, n: real)
    requires bv - beta * rv <= bc - beta * rc
    requires -1.0 <= rc && rv <= n - 1.0 && beta >= 0.0
    ensures bc >= bv - beta * n
  {
    ProductMonotone(beta, rv - rc, n);
    Distribute(rv, rc, beta);
  }

  /** With `beta * n < 1`, a cold engine is never chosen while a full hit exists. */
  lemma ColdNeverBeatsFullHit(q: Request, chosen: string, warm: string)
    requires IsChoice(q, chosen) && warm in q.endpoints && q.beta >= 0.0
    requires q.beta * |q.Fleet()| as real < 1.0 && q.Benefit(warm) == 1.0
    ensures q.Benefit(chosen) > 0.0 && q.Matched(chosen) > 0
  {
    hide Request.Score;
    LocalityFloor(q, chosen, warm);
  }

  /** The chosen engine's load is within `max(1, mean) / beta` of every other's. */
  lemma {:induction false} ChosenNearLeastLoaded(q: Request, chosen: string, v: string)
    requires IsChoice(q, chosen) && v in q.endpoints && q.beta > 0.0
    ensures q.LoadOf(chosen) - q.LoadOf(v) <= q.Scale() / q.beta
  {
    hide *;
    ChoiceScores(q, chosen, v);
    ScoreOrder(q, chosen, v);
    BenefitAndScale(q, chosen);
    BenefitAndScale(q, v);
    GapFromScores(q.Benefit(chosen), q.Benefit(v), q.LoadOf(chosen), q.LoadOf(v), q.Scale(), q.beta);
  }

  lemma GapFromScores(bc: real, bv: real, lc: real, lv: real, s: real, beta: real)
    requires beta * (lc - lv) <= (bc - bv) * s
    requires bv >= 0.0 && bc <= 1.0 && s > 0.0 && beta > 0.0
    ensures lc - lv <= s / beta
  {
    ProductMonotone(s, bc - bv, 1.0);
    DivideOut(lc - lv, s, beta);
  }

  /** Two engines, one holding the whole prompt and one nothing: the crossover is at relative load 1/(2 beta). */
  lemma TwoEngineCrossover(q: Request, warm: string, cold: string)
    requires q.endpoints == [warm, cold] && warm != cold
    requires q.Benefit(warm) == 1.0 && q.Benefit(cold) == 0.0
    ensures q.Score(warm) > q.Score(cold) <==> q.beta * q.RelativeLoad(warm) < 0.5
  {
    hide *;
    TwoEngineRelative(q, warm, cold);
    TwoEngineScores(q, warm);
    TwoEngineScores(q, cold);
    NegatedFactor(q.beta, q.RelativeLoad(warm), q.RelativeLoad(cold));
    var x := q.beta * q.RelativeLoad(warm);
    assert q.Score(warm) == 1.0 - x;
    assert q.Score(cold) == x;
  }

  lemma TwoEngineRelative(q: Request, warm: string, cold: string)
    requires q.endpoints == [warm, cold] && warm != cold
    ensures q.RelativeLoad(cold) == -q.RelativeLoad(warm)
  {
    assert q.Fleet() == [warm, cold] by {
      assert q.endpoints[..1] == [warm];
      assert [warm][..0] == [];
      assert Distinct([warm]) == [warm];
    }
    RelativeLoadBounds(q, warm);
    hide Request.RelativeLoad;
    assert [warm, cold][1..] == [cold] && [cold][1..] == [];
    assert RelativeSum(q, [cold]) == q.RelativeLoad(cold) + RelativeSum(q, []);
    assert RelativeSum(q, [warm, cold]) == q.RelativeLoad(warm) + RelativeSum(q, [cold]);
  }

  lemma TwoEngineScores(q: Request, u: string)
    requires q.endpoints != []
    ensures q.Score(u) == q.Benefit(u) - q.beta * q.RelativeLoad(u)
  {
    hide Request.RelativeLoad, Request.Benefit;
  }

  lemma NegatedFactor(beta: real, r: real, o: real)
    requires o == -r
    ensures beta * o == -(beta * r)
  {
  }
}
