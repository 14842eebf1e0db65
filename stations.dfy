/**
 * Station lookup: the alias table, the scoring of search hits and the
 * four-step search cascade that turns a typed station name into an EVA
 * number and a display name.
 */
module Stations {
  import opened Wrappers
  import opened Text

  /**
   * One entry of a record's `evaNumbers` list; `None` when it has no `number`
   * key. A JSON `null` number is not represented.
   */
  datatype EvaNumber = EvaNumber(number: Option<int>)

  /**
   * One hit of the station search. A missing or null `name` or
   * `federalStateCode` is the empty string, a missing `evaNumbers` the empty list.
   */
  datatype StationRecord = StationRecord(name: string, federalStateCode: string, evaNumbers: seq<EvaNumber>)

  /**
   * The station search: a query string to the list of hits, the empty list
   * when the HTTP status is not 200. A search that raises (timeout,
   * connection error, a body that is no JSON) is not represented.
   */
  type Search = string -> seq<StationRecord>

  /** Records without EVA numbers are never picked. */
  predicate Eligible(s: StationRecord) {
    |s.evaNumbers| > 0
  }

  /** `a.startswith(b)`. */
  predicate StartsWith(a: string, b: string) {
    b <= a
  }

  /**
   * The additive score of a normalised name `nn` against the normalised
   * query `qn`. Each rule leaves its own trace in the sum, so the score
   * tells exactly which rules fired.
   */
  function Score(nn: string, qn: string, region: string): (r: int)
    ensures 0 <= r <= 180
    ensures r >= 100 <==> nn == qn
    ensures r % 100 >= 50 || r >= 100 <==> StartsWith(nn, qn) || StartsWith(qn, nn)
    ensures r % 50 >= 25 <==> Contains(nn, qn)
    ensures r % 25 == 5 <==> region == "DE-BY"
    ensures r % 25 == (if region == "DE-BY" then 5 else 0)
    ensures (r / 25) % 2 == 1 <==> Contains(nn, qn)
    ensures (r / 50) % 2 == 1 <==> (StartsWith(nn, qn) || StartsWith(qn, nn))
    ensures r / 100 == 1 <==> nn == qn
  {
    (if nn == qn then 100 else 0)
    + (if StartsWith(nn, qn) || StartsWith(qn, nn) then 50 else 0)
    + (if Contains(nn, qn) then 25 else 0)
    + (if region == "DE-BY" then 5 else 0)
  }

  /** The score of record `s` against the normalised query `qn`. */
  function StationScore(fold: Folding, s: StationRecord, qn: string): int
  {
    Score(Norm(fold, s.name), qn, s.federalStateCode)
  }

  /** The score of every record against one normalised query. */
  function Ranking(fold: Folding, qn: string): StationRecord -> int
  {
    s => StationScore(fold, s, qn)
  }

  /**
   * Among the first `n` records, `best` is the first with the greatest rank
   * among the eligible ones: eligible, no eligible record ranks higher, and
   * every eligible record before it ranks strictly lower.
   */
  ghost predicate FirstBest(rs: seq<StationRecord>, rank: StationRecord -> int, n: nat, best: nat)
    requires n <= |rs|
  {
    && best < n && Eligible(rs[best])
    && (forall j :: 0 <= j < n && Eligible(rs[j]) ==> rank(rs[j]) <= rank(rs[best]))
    && (forall j :: 0 <= j < best && Eligible(rs[j]) ==> rank(rs[j]) < rank(rs[best]))
  }

  /** Whether any of the first `n` records has EVA numbers. */
  ghost predicate AnyEligible(rs: seq<StationRecord>, n: nat)
    requires n <= |rs|
  {
    exists j :: 0 <= j < n && Eligible(rs[j])
  }

  /**
   * The index `_pick_best_station` settles on after the first `n` records:
   * a later record replaces the current one only with a strictly greater rank.
   */
  function BestUpTo(rs: seq<StationRecord>, rank: StationRecord -> int, n: nat): (r: Option<nat>)
    requires n <= |rs|
    ensures r.None? <==> !AnyEligible(rs, n)
    ensures r.Some? ==> FirstBest(rs, rank, n, r.value)
  {
    if n == 0 then None
    else
      var b := BestUpTo(rs, rank, n - 1);
      if !Eligible(rs[n - 1]) then
        b
      else if b.None? || rank(rs[n - 1]) > rank(rs[b.value]) then
        Some(n - 1)
      else
        b
  }

  /** The index of the record `_pick_best_station` returns, if any. */
  function Pick(rs: seq<StationRecord>, fold: Folding, qn: string): (r: Option<nat>)
    ensures r.None? <==> !AnyEligible(rs, |rs|)
    ensures r.Some? ==> FirstBest(rs, Ranking(fold, qn), |rs|, r.value)
  {
    BestUpTo(rs, Ranking(fold, qn), |rs|)
  }

  /**
   * An eligible record whose normalised name equals the query outranks every
   * record whose name does not, so the pick is then an exact match too.
   */
  lemma ExactMatchWins(rs: seq<StationRecord>, fold: Folding, qn: string, j: nat)
    requires j < |rs| && Eligible(rs[j]) && Norm(fold, rs[j].name) == qn
    ensures Pick(rs, fold, qn).Some? && Norm(fold, rs[Pick(rs, fold, qn).value].name) == qn
  {
    var p := Pick(rs, fold, qn);
    assert AnyEligible(rs, |rs|);
    var rank := Ranking(fold, qn);
    assert rank(rs[j]) <= rank(rs[p.value]);
    assert rank(rs[j]) >= 100;
  }

  /** `_pick_best_station`: the first eligible record of greatest score, or `None`. */
  method PickBestStation(rs: seq<StationRecord>, fold: Folding, qn: string) returns (best: Option<StationRecord>)
    ensures best.None? <==> !AnyEligible(rs, |rs|)
    ensures best.Some? ==> Pick(rs, fold, qn).Some? && best.value == rs[Pick(rs, fold, qn).value]
  {
    best := None;
    var bestScore := -1;
    ghost var rank := Ranking(fold, qn);
    ghost var at: Option<nat> := None;
    for i := 0 to |rs|
      invariant at == BestUpTo(rs, rank, i)
      invariant at.None? ==> best.None? && bestScore == -1
      invariant at.Some? ==> at.value < |rs| && best == Some(rs[at.value]) && bestScore == rank(rs[at.value])
    {
      if |rs[i].evaNumbers| == 0 {
        continue;
      }
      var nn := Norm(fold, rs[i].name);
      var score := Score(nn, qn, rs[i].federalStateCode);
      assert score == rank(rs[i]);
      if score > bestScore {
        best := Some(rs[i]);
        bestScore := score;
        at := Some(i);
      }
    }
  }

  // ---------------------------------------------------------------------------
  // Aliases

  /** The alias table, keyed by normalised query. */
  const Aliases: map<string, string> := map[
    "ostbahnhof" := "muenchen ost",
    "muenchen ostbahnhof" := "muenchen ost",
    "hauptbahnhof" := "muenchen hbf",
    "muenchen hauptbahnhof" := "muenchen hbf",
    "munich east" := "muenchen ost",
    "munich main" := "muenchen hbf"
  ]

  /**
   * `_apply_aliases`: the canonical name when the normalised query is a key
   * of the table, otherwise the query itself, not normalised.
   */
  function ApplyAliases(fold: Folding, q: string): (r: string)
    ensures Norm(fold, q) in Aliases ==> r == Aliases[Norm(fold, q)]
    ensures Norm(fold, q) !in Aliases ==> r == q
    ensures r == q || r == "muenchen ost" || r == "muenchen hbf"
  {
    var qn := Norm(fold, q);
    if qn in Aliases then Aliases[qn] else q
  }

  /** A canonical name is its own normal form. */
  lemma CanonicalNamesNormal(fold: Folding, c: string)
    requires AsciiFixed(fold)
    requires c == "muenchen ost" || c == "muenchen hbf"
    ensures Norm(fold, c) == c
  {
    assert IsAscii(c);
    assert forall i :: 0 <= i < |c| ==> !IsUpper(c[i]);
    assert Squeezed(c);
    NormFixesNormalAscii(fold, c);
  }

  /** A canonical name is not itself a key, so the aliases leave it alone. */
  lemma CanonicalNamesFixed(fold: Folding, c: string)
    requires AsciiFixed(fold)
    requires c == "muenchen ost" || c == "muenchen hbf"
    ensures ApplyAliases(fold, c) == c
  {
    assert c !in Aliases;
    CanonicalNamesNormal(fold, c);
  }

  /** Applying the aliases a second time changes nothing. */
  lemma ApplyAliasesIdempotent(fold: Folding, q: string)
    requires AsciiFixed(fold)
    ensures ApplyAliases(fold, ApplyAliases(fold, q)) == ApplyAliases(fold, q)
  {
    var r := ApplyAliases(fold, q);
    if r != q {
      CanonicalNamesFixed(fold, r);
    }
  }

  // ---------------------------------------------------------------------------
  // The lookup cascade

  /** What `get_station_id_and_name` yields: a hit, `(None, None)`, or the `KeyError` of a number-less entry. */
  datatype StationLookup = Found(eva: int, name: string) | NotFound | MissingNumber

  /** One search of the cascade: the query sent and the normalised query its hits are scored against. */
  datatype Attempt = Attempt(query: string, scoring: string)

  /** `f"{city}*{q}*"`: the query of a Munich-prefixed search. */
  function Wildcard(city: string, q: string): string {
    city + "*" + q + "*"
  }

  /** The four searches, in the order they are tried. */
  function Attempts(fold: Folding, q: string): (r: seq<Attempt>)
    ensures |r| == 4
    ensures r[0] == Attempt(ApplyAliases(fold, q), Norm(fold, ApplyAliases(fold, q)))
    ensures r[1] == Attempt("*" + q + "*", Norm(fold, q))
    ensures r[2] == Attempt(Wildcard("München", q), Norm(fold, ReplaceChar(Wildcard("München", q), '*', ' ')))
    ensures r[3] == Attempt(Wildcard("Muenchen", q), Norm(fold, ReplaceChar(Wildcard("Muenchen", q), '*', ' ')))
  {
    var primary := ApplyAliases(fold, q);
    var utf := Wildcard("München", q);
    var ascii := Wildcard("Muenchen", q);
    [ Attempt(primary, Norm(fold, primary)),
      Attempt("*" + q + "*", Norm(fold, q)),
      Attempt(utf, Norm(fold, ReplaceChar(utf, '*', ' '))),
      Attempt(ascii, Norm(fold, ReplaceChar(ascii, '*', ' '))) ]
  }

  /**
   * What the third and fourth searches score against: the city name, a
   * space, the query with its own stars read as spaces, and a space.
   */
  lemma AttemptsScoring(fold: Folding, q: string)
    ensures Attempts(fold, q)[2].scoring == Norm(fold, "München" + " " + ReplaceChar(q, '*', ' ') + " ")
    ensures Attempts(fold, q)[3].scoring == Norm(fold, "Muenchen" + " " + ReplaceChar(q, '*', ' ') + " ")
  {
    CityStars("München", q);
    CityStars("Muenchen", q);
  }

  /** The stars around the query become spaces, and so do the query's own. */
  lemma CityStars(city: string, q: string)
    requires '*' !in city
    ensures ReplaceChar(Wildcard(city, q), '*', ' ') == city + " " + ReplaceChar(q, '*', ' ') + " "
  {
    ReplaceCharAppend(city + "*" + q, "*", '*', ' ');
    ReplaceCharAppend(city + "*", q, '*', ' ');
    ReplaceCharAppend(city, "*", '*', ' ');
    assert ReplaceChar("*", '*', ' ') == " ";
  }

  /** The answer for a picked record: its first EVA number and its name, or the query when the name is empty. */
  function Answer(s: StationRecord, q: string): (r: StationLookup)
    requires Eligible(s)
    ensures !r.NotFound?
    ensures r.MissingNumber? <==> s.evaNumbers[0].number.None?
    ensures r.Found? ==> Some(r.eva) == s.evaNumbers[0].number
    ensures r.Found? ==> r.name == (if s.name == "" then q else s.name)
  {
    match s.evaNumbers[0].number
    case None => MissingNumber
    case Some(eva) => Found(eva, if s.name == "" then q else s.name)
  }

  /** Whether search `a` has a record to pick. */
  ghost predicate Hits(search: Search, a: Attempt) {
    var rs := search(a.query); AnyEligible(rs, |rs|)
  }

  /** The answer of the first attempt whose pick is not `None`. */
  function FirstHit(search: Search, fold: Folding, q: string, attempts: seq<Attempt>): (r: StationLookup)
    ensures r.NotFound? <==> forall k :: 0 <= k < |attempts| ==> !Hits(search, attempts[k])
    decreases |attempts|
  {
    if attempts == [] then NotFound
    else
      var rs := search(attempts[0].query);
      var p := Pick(rs, fold, attempts[0].scoring);
      if p.Some? then
        Answer(rs[p.value], q)
      else
        assert forall k :: 1 <= k < |attempts| ==> attempts[k] == attempts[1..][k - 1];
        FirstHit(search, fold, q, attempts[1..])
  }

  /**
   * When attempt `k` is the first with a record to pick, the lookup answers
   * with that attempt's pick.
   */
  lemma {:induction false} FirstHitAt(search: Search, fold: Folding, q: string, attempts: seq<Attempt>, k: nat)
    requires k < |attempts| && Hits(search, attempts[k])
    requires forall m :: 0 <= m < k ==> !Hits(search, attempts[m])
    ensures var rs := search(attempts[k].query);
            var p := Pick(rs, fold, attempts[k].scoring);
            p.Some? && FirstHit(search, fold, q, attempts) == Answer(rs[p.value], q)
    decreases k
  {
    if k > 0 {
      assert !Hits(search, attempts[0]);
      assert forall m :: 0 <= m < k - 1 ==> attempts[1..][m] == attempts[m + 1];
      FirstHitAt(search, fold, q, attempts[1..], k - 1);
    }
  }

  /** `get_station_id_and_name` over the search oracle. */
  function Resolve(search: Search, fold: Folding, q: string): StationLookup
  {
    FirstHit(search, fold, q, Attempts(fold, q))
  }

  /** `get_station_id_and_name`: the cascade of early returns, step 3 as a loop over two variants. */
  method GetStationIdAndName(search: Search, fold: Folding, q: string) returns (r: StationLookup)
    ensures r == Resolve(search, fold, q)
  {
    ghost var attempts := Attempts(fold, q);
    // Step 1: the aliased query, scored against its own normal form.
    var primary := ApplyAliases(fold, q);
    var qn := Norm(fold, primary);
    var results := search(primary);
    var best := PickBestStation(results, fold, qn);
    assert attempts[0] == Attempt(primary, qn);
    if best.Some? {
      r := Answer(best.value, q);
      return;
    }
    assert Resolve(search, fold, q) == FirstHit(search, fold, q, attempts[1..]);
    // Step 2: "*q*", scored against the normalised query.
    var wildcard := "*" + q + "*";
    results := search(wildcard);
    best := PickBestStation(results, fold, Norm(fold, q));
    assert attempts[1..][0] == Attempt(wildcard, Norm(fold, q));
    if best.Some? {
      r := Answer(best.value, q);
      return;
    }
    assert attempts[1..][1..] == attempts[2..];
    // Step 3: the two Munich prefixes, scored with the stars read as spaces.
    var variants := [Wildcard("München", q), Wildcard("Muenchen", q)];
    for i := 0 to 2
      invariant Resolve(search, fold, q) == FirstHit(search, fold, q, attempts[2 + i..])
    {
      var variant := variants[i];
      results := search(variant);
      best := PickBestStation(results, fold, Norm(fold, ReplaceChar(variant, '*', ' ')));
      assert attempts[2 + i..][0] == Attempt(variant, Norm(fold, ReplaceChar(variant, '*', ' ')));
      if best.Some? {
        r := Answer(best.value, q);
        return;
      }
      assert attempts[2 + i..][1..] == attempts[2 + i + 1..];
    }
    r := NotFound;
  }
}
