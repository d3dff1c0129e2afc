/**
 * The ZMYY (知苗易约) channel's scan: the selected provinces are walked one
 * after another; for each city the hospital list is requested, and for each
 * hospital its products, keeping those whose text holds the keyword.
 */
module ZhimiaoSniff {
  import opened Domain
  import opened Strings
  import Regions

  /** The HTTP status a ZMYY envelope reports on success. */
  const StatusOK := 200

  /** One hospital of a ZMYY hospital list. */
  datatype ZmHospital = ZmHospital(id: string, cname: string)

  /** One product of a hospital; `date` is the free-text appointment window. */
  datatype ZmProduct = ZmProduct(id: string, text: string, date: string)

  /** The query of a hospital list request: the city triple and the city code. */
  datatype ZmQuery = ZmQuery(city: string, cityCode: string)

  datatype ZmListReply =
    | ZmListTransportError
    | ZmListParseError
    | ZmListEnvelope(status: int, hospitals: seq<ZmHospital>)

  datatype ZmProductReply =
    | ZmProductTransportError
    | ZmProductParseError
    | ZmProductEnvelope(status: int, products: seq<ZmProduct>)

  predicate ListAccepted(reply: ZmListReply)
  {
    reply.ZmListEnvelope? && reply.status == StatusOK
  }

  predicate ProductsAccepted(reply: ZmProductReply)
  {
    reply.ZmProductEnvelope? && reply.status == StatusOK
  }

  /** The city code sent to ZMYY: `01` appended for a switched-on special region, `00` otherwise. */
  function ZmCode(city: City): string
  {
    if IsSpecialRegion(city.name) then city.code + "01" else city.code + "00"
  }

  /** No special region is switched on, so every city code gets `00`. */
  lemma ZmCodeAppendsZeroZero(city: City)
    ensures ZmCode(city) == city.code + "00"
    ensures |ZmCode(city)| == |city.code| + 2
  {
    NoSpecialRegion(city.name);
  }

  /** The city record after its code has been rewritten in place. */
  function ZmProbed(city: City): City
  {
    city.(code := ZmCode(city))
  }

  /** The `city` query parameter: a JSON-style triple of province, city and an empty district. */
  function CityParam(province: string, cityName: string): string
  {
    "[\"" + province + "\",\"" + cityName + "\",\"\"]"
  }

  function ListQuery(province: string, city: City): ZmQuery
  {
    ZmQuery(CityParam(province, city.name), ZmCode(city))
  }

  /** The candidate a kept product becomes. */
  function ZmCandidate(cityName: string, hospital: ZmHospital, product: ZmProduct): Candidate
  {
    Candidate(cityName, product.id, product.text, hospital.cname, product.date, ZmSource)
  }

  /** One hospital's products that hold the keyword, in order; there is no time filter. */
  function ProductPicks(cityName: string, hospital: ZmHospital, products: seq<ZmProduct>): seq<Candidate>
  {
    if |products| == 0 then []
    else
      (if Contains(products[0].text, Keyword) then [ZmCandidate(cityName, hospital, products[0])] else []) +
      ProductPicks(cityName, hospital, products[1..])
  }

  /** A hospital whose product request fails, is undecodable or is rejected contributes nothing. */
  function HospitalPicks(cityName: string, hospital: ZmHospital, productsOf: string -> ZmProductReply): seq<Candidate>
  {
    var reply := productsOf(hospital.id);
    if ProductsAccepted(reply) then ProductPicks(cityName, hospital, reply.products) else []
  }

  /** One city's candidates: every hospital's, in list order. */
  function HospitalsPicks(cityName: string, hospitals: seq<ZmHospital>, productsOf: string -> ZmProductReply): seq<Candidate>
  {
    if |hospitals| == 0 then []
    else HospitalPicks(cityName, hospitals[0], productsOf) + HospitalsPicks(cityName, hospitals[1..], productsOf)
  }

  /** A product is kept when its hospital's reply is accepted and its text holds the keyword. */
  predicate Offered(hospital: ZmHospital, productsOf: string -> ZmProductReply, product: ZmProduct)
  {
    ProductsAccepted(productsOf(hospital.id)) && product in productsOf(hospital.id).products &&
    Contains(product.text, Keyword)
  }

  lemma {:induction false} ProductPicksMembership(cityName: string, hospital: ZmHospital, products: seq<ZmProduct>, c: Candidate)
    ensures c in ProductPicks(cityName, hospital, products) <==>
      exists p :: p in products && Contains(p.text, Keyword) && c == ZmCandidate(cityName, hospital, p)
  {
    if |products| > 0 {
      ProductPicksMembership(cityName, hospital, products[1..], c);
      assert forall p :: p in products <==> p == products[0] || p in products[1..];
    }
  }

  /**
   * A city's candidates are exactly the keyword products of the hospitals
   * whose product request was accepted; a failing hospital is skipped, not
   * fatal.
   */
  lemma {:induction false} HospitalsPicksMembership(cityName: string, hospitals: seq<ZmHospital>, productsOf: string -> ZmProductReply, c: Candidate)
    ensures c in HospitalsPicks(cityName, hospitals, productsOf) <==>
      exists h, p :: h in hospitals && Offered(h, productsOf, p) && c == ZmCandidate(cityName, h, p)
  {
    if |hospitals| > 0 {
      var h0 := hospitals[0];
      HospitalsPicksMembership(cityName, hospitals[1..], productsOf, c);
      if ProductsAccepted(productsOf(h0.id)) {
        ProductPicksMembership(cityName, h0, productsOf(h0.id).products, c);
      }
      assert forall h :: h in hospitals <==> h == h0 || h in hospitals[1..];
    }
  }

  /** A product keeps its free-text window as its start time, even one that names no time. */
  lemma KeptWithoutTimeFilter(cityName: string, hospital: ZmHospital, product: ZmProduct)
    requires Contains(product.text, Keyword)
    ensures ProductPicks(cityName, hospital, [product]) == [ZmCandidate(cityName, hospital, product)]
    ensures ProductPicks(cityName, hospital, [product])[0].startTime == product.date
  {
  }

  /**
   * What the province walk returns: every city's candidates, in order,
   * until the first city whose hospital list fails, keeping what was found
   * before it.
   */
  function ZmWorker(province: string, cities: seq<City>, listOf: ZmQuery -> ZmListReply, productsOf: string -> ZmProductReply): seq<Candidate>
  {
    if |cities| == 0 then []
    else
      var reply := listOf(ListQuery(province, cities[0]));
      if !ListAccepted(reply) then []
      else HospitalsPicks(cities[0].name, reply.hospitals, productsOf) + ZmWorker(province, cities[1..], listOf, productsOf)
  }

  /** How many cities the walk reaches (and rewrites): up to and including the first failing one. */
  function ZmVisited(province: string, cities: seq<City>, listOf: ZmQuery -> ZmListReply): nat
  {
    if |cities| == 0 then 0
    else if !ListAccepted(listOf(ListQuery(province, cities[0]))) then 1
    else 1 + ZmVisited(province, cities[1..], listOf)
  }

  /**
   * A failing city ends the walk but keeps the earlier cities' candidates:
   * the result is what the cities before it give.
   */
  lemma {:induction false} ZmWorkerKeepsPartial(province: string, cities: seq<City>, listOf: ZmQuery -> ZmListReply,
                                                productsOf: string -> ZmProductReply, k: nat)
    requires k < |cities| && !ListAccepted(listOf(ListQuery(province, cities[k])))
    ensures ZmWorker(province, cities, listOf, productsOf) == ZmWorker(province, cities[..k], listOf, productsOf)
    ensures ZmVisited(province, cities, listOf) <= k + 1
  {
    if k > 0 && ListAccepted(listOf(ListQuery(province, cities[0]))) {
      assert cities[1..][k - 1] == cities[k];
      ZmWorkerKeepsPartial(province, cities[1..], listOf, productsOf, k - 1);
      assert cities[..k][1..] == cities[1..][..k - 1];
    }
  }

  /** Every ZMYY candidate holds the keyword, names a city of the province and carries the ZMYY source. */
  lemma {:induction false} ZmCandidatesShape(province: string, cities: seq<City>, listOf: ZmQuery -> ZmListReply,
                                             productsOf: string -> ZmProductReply)
    ensures forall c | c in ZmWorker(province, cities, listOf, productsOf) ::
      Contains(c.vaccine, Keyword) && c.source == ZmSource && exists k :: 0 <= k < |cities| && c.city == cities[k].name
  {
    if |cities| > 0 {
      ZmCandidatesShape(province, cities[1..], listOf, productsOf);
      var reply := listOf(ListQuery(province, cities[0]));
      if ListAccepted(reply) {
        forall c | c in HospitalsPicks(cities[0].name, reply.hospitals, productsOf)
          ensures Contains(c.vaccine, Keyword) && c.source == ZmSource && c.city == cities[0].name
        {
          HospitalsPicksMembership(cities[0].name, reply.hospitals, productsOf, c);
        }
        forall c | c in ZmWorker(province, cities[1..], listOf, productsOf)
          ensures exists k :: 0 <= k < |cities| && c.city == cities[k].name
        {
          var k :| 0 <= k < |cities[1..]| && c.city == cities[1..][k].name;
          assert c.city == cities[k + 1].name;
        }
      }
    }
  }

  /** The product loop of one hospital. */
  method CollectProducts(cityName: string, hospital: ZmHospital, products: seq<ZmProduct>) returns (picked: seq<Candidate>)
    ensures picked == ProductPicks(cityName, hospital, products)
  {
    picked := [];
    var k := 0;
    while k < |products|
      invariant 0 <= k <= |products|
      invariant picked + ProductPicks(cityName, hospital, products[k..]) == ProductPicks(cityName, hospital, products)
    {
      assert products[k..][1..] == products[k + 1..];
      var product := products[k];
      if Contains(product.text, Keyword) {
        picked := picked + [Candidate(cityName, product.id, product.text, hospital.cname, product.date, ZmSource)];
      }
      k := k + 1;
    }
    assert products[k..] == [];
  }

  /** One more hospital's candidates appended to the result keep the loop's account of the city. */
  lemma HospitalStep(cityName: string, hospitals: seq<ZmHospital>, j: nat, productsOf: string -> ZmProductReply,
                     picked: seq<Candidate>, found: seq<Candidate>)
    requires j < |hospitals| && found == HospitalPicks(cityName, hospitals[j], productsOf)
    requires picked + HospitalsPicks(cityName, hospitals[j..], productsOf) == HospitalsPicks(cityName, hospitals, productsOf)
    ensures (picked + found) + HospitalsPicks(cityName, hospitals[j + 1..], productsOf) == HospitalsPicks(cityName, hospitals, productsOf)
  {
    var rest := hospitals[j..];
    assert rest[0] == hospitals[j] && rest[1..] == hospitals[j + 1..];
    var tail := HospitalsPicks(cityName, rest[1..], productsOf);
    assert HospitalsPicks(cityName, rest, productsOf) == found + tail;
    assert picked + (found + tail) == (picked + found) + tail;
  }

  /** The hospital loop of one city: a hospital whose product request fails is skipped. */
  method CollectHospitals(cityName: string, hospitals: seq<ZmHospital>, productsOf: string -> ZmProductReply)
    returns (picked: seq<Candidate>)
    ensures picked == HospitalsPicks(cityName, hospitals, productsOf)
  {
    picked := [];
    var j := 0;
    while j < |hospitals|
      invariant 0 <= j <= |hospitals|
      invariant picked + HospitalsPicks(cityName, hospitals[j..], productsOf) == HospitalsPicks(cityName, hospitals, productsOf)
    {
      var hospital := hospitals[j];
      var reply := productsOf(hospital.id);
      var found: seq<Candidate> := [];
      if !(reply.ZmProductTransportError? || reply.ZmProductParseError? || reply.status != StatusOK) {
        found := CollectProducts(cityName, hospital, reply.products);
      }
      HospitalStep(cityName, hospitals, j, productsOf, picked, found);
      picked := picked + found;
      j := j + 1;
    }
    assert hospitals[j..] == [];
  }

  /** An accepted city extends the walk's result by its candidates and counts as reached. */
  lemma ZmWalkStep(province: string, original: seq<City>, i: nat, listOf: ZmQuery -> ZmListReply,
                   productsOf: string -> ZmProductReply, results: seq<Candidate>, found: seq<Candidate>)
    requires i < |original| && ListAccepted(listOf(ListQuery(province, original[i])))
    requires found == HospitalsPicks(original[i].name, listOf(ListQuery(province, original[i])).hospitals, productsOf)
    requires results + ZmWorker(province, original[i..], listOf, productsOf) == ZmWorker(province, original, listOf, productsOf)
    requires ZmVisited(province, original, listOf) == i + ZmVisited(province, original[i..], listOf)
    ensures (results + found) + ZmWorker(province, original[i + 1..], listOf, productsOf) ==
      ZmWorker(province, original, listOf, productsOf)
    ensures ZmVisited(province, original, listOf) == i + 1 + ZmVisited(province, original[i + 1..], listOf)
  {
    var rest := original[i..];
    assert rest[0] == original[i] && rest[1..] == original[i + 1..];
    var tail := ZmWorker(province, rest[1..], listOf, productsOf);
    assert ZmWorker(province, rest, listOf, productsOf) == found + tail;
    assert results + (found + tail) == (results + found) + tail;
  }

  /** A failing city ends the walk there: the result is what came before, and it is the last city reached. */
  lemma ZmWalkStop(province: string, original: seq<City>, i: nat, listOf: ZmQuery -> ZmListReply,
                   productsOf: string -> ZmProductReply, results: seq<Candidate>)
    requires i < |original| && !ListAccepted(listOf(ListQuery(province, original[i])))
    requires results + ZmWorker(province, original[i..], listOf, productsOf) == ZmWorker(province, original, listOf, productsOf)
    requires ZmVisited(province, original, listOf) == i + ZmVisited(province, original[i..], listOf)
    ensures results == ZmWorker(province, original, listOf, productsOf)
    ensures ZmVisited(province, original, listOf) == i + 1
  {
    assert original[i..][0] == original[i];
    assert results + [] == results;
  }

  /** A walk that reaches the end of the list has found everything and reached every city. */
  lemma ZmWalkDone(province: string, original: seq<City>, listOf: ZmQuery -> ZmListReply,
                   productsOf: string -> ZmProductReply, results: seq<Candidate>)
    requires results + ZmWorker(province, original[|original|..], listOf, productsOf) == ZmWorker(province, original, listOf, productsOf)
    requires ZmVisited(province, original, listOf) == |original| + ZmVisited(province, original[|original|..], listOf)
    ensures results == ZmWorker(province, original, listOf, productsOf)
    ensures ZmVisited(province, original, listOf) == |original|
  {
    assert original[|original|..] == [];
    assert results + [] == results;
  }

  /**
   * One city of the walk: its code rewritten, its hospital list requested,
   * and, when that list is accepted, its hospitals walked.
   */
  method VisitCity(province: string, city: City, listOf: ZmQuery -> ZmListReply, productsOf: string -> ZmProductReply)
    returns (probed: City, accepted: bool, found: seq<Candidate>)
    ensures probed == ZmProbed(city)
    ensures accepted == ListAccepted(listOf(ListQuery(province, city)))
    ensures accepted ==> found == HospitalsPicks(city.name, listOf(ListQuery(province, city)).hospitals, productsOf)
  {
    probed := city;
    if IsSpecialRegion(probed.name) {
      probed := probed.(code := probed.code + "01");
    } else {
      probed := probed.(code := probed.code + "00");
    }
    var reply := listOf(ZmQuery(CityParam(province, probed.name), probed.code));
    accepted := !(reply.ZmListTransportError? || reply.ZmListParseError? || reply.status != StatusOK);
    found := [];
    if accepted {
      found := CollectHospitals(probed.name, reply.hospitals, productsOf);
    }
  }

  /**
   * `hasSeckill` of ZMYY: rewrites each city's code in place, requests its
   * hospitals and their products, and returns what it has found so far at
   * the first city whose hospital list fails.
   */
  method ZmHasSeckill(province: string, cities: array<City>, listOf: ZmQuery -> ZmListReply, productsOf: string -> ZmProductReply)
    returns (results: seq<Candidate>, ghost visited: nat)
    modifies cities
    ensures results == ZmWorker(province, old(cities[..]), listOf, productsOf)
    ensures visited == ZmVisited(province, old(cities[..]), listOf)
    ensures visited <= cities.Length
    ensures cities[..] == Rewritten(ZmProbed, old(cities[..])[..visited]) + old(cities[..])[visited..]
  {
    ghost var original := cities[..];
    results := [];
    var i := 0;
    assert original[0..] == original;
    assert original[..0] == [];
    while i < cities.Length
      invariant 0 <= i <= cities.Length
      invariant cities[..] == Rewritten(ZmProbed, original[..i]) + original[i..]
      invariant results + ZmWorker(province, original[i..], listOf, productsOf) == ZmWorker(province, original, listOf, productsOf)
      invariant ZmVisited(province, original, listOf) == i + ZmVisited(province, original[i..], listOf)
    {
      ghost var before := cities[..];
      RewriteNext(ZmProbed, original, i, before, ZmProbed(original[i]));
      var probed, accepted, found := VisitCity(province, cities[i], listOf, productsOf);
      cities[i] := probed;
      assert cities[..] == before[i := probed];
      if !accepted {
        ZmWalkStop(province, original, i, listOf, productsOf, results);
        return results, i + 1;
      }
      ZmWalkStep(province, original, i, listOf, productsOf, results, found);
      results := results + found;
      i := i + 1;
    }
    ZmWalkDone(province, original, listOf, productsOf, results);
    assert original[..i] == original;
    return results, i;
  }

  /** One province's walk on a fresh copy of its city list. */
  method RunProvince(province: string, cities: seq<City>, listOf: ZmQuery -> ZmListReply, productsOf: string -> ZmProductReply)
    returns (found: seq<Candidate>)
    ensures found == ZmWorker(province, cities, listOf, productsOf)
  {
    var buffer := new City[|cities|](k requires 0 <= k < |cities| => cities[k]);
    assert buffer[..] == cities;
    ghost var visited;
    found, visited := ZmHasSeckill(province, buffer, listOf, productsOf);
  }

  /** Each selected province's candidates. */
  function ZmOutputs(chosen: Codebook, listOf: ZmQuery -> ZmListReply, productsOf: string -> ZmProductReply)
    : (outs: map<string, seq<Candidate>>)
    ensures outs.Keys == chosen.Keys
  {
    map p | p in chosen :: ZmWorker(p, chosen[p], listOf, productsOf)
  }

  /**
   * `Sniff` of ZMYY: loads the codebook, applies the region filter, then
   * walks the selected provinces one after another (in map order) and
   * concatenates their candidates.
   */
  method Sniff(file: CodebookFile, regions: seq<string>, listOf: ZmQuery -> ZmListReply, productsOf: string -> ZmProductReply)
    returns (r: Result<seq<Candidate>>, ghost order: seq<string>)
    ensures file.Absent? ==> r == Failure(CodebookMissing)
    ensures file.Unreadable? ==> r == Failure(CodebookUnreadable)
    ensures file.Loaded? && Regions.Select(file.book, regions).Failure? ==>
      r == Failure(Regions.Select(file.book, regions).error)
    ensures file.Loaded? && Regions.Select(file.book, regions).Success? ==>
      var chosen := Regions.Select(file.book, regions).value.chosen;
      IsOrderOf(order, chosen.Keys) && (forall p | p in order :: p in chosen) &&
      r == Success(Flatten(order, ZmOutputs(chosen, listOf, productsOf)))
  {
    order := [];
    if file.Absent? {
      return Failure(CodebookMissing), order;
    }
    if file.Unreadable? {
      return Failure(CodebookUnreadable), order;
    }
    var selection := Regions.SelectRegions(file.book, regions);
    if selection.Failure? {
      return Failure(selection.error), order;
    }
    var chosen := selection.value.chosen;
    ghost var outs := ZmOutputs(chosen, listOf, productsOf);
    var remaining := chosen.Keys;
    var results: seq<Candidate> := [];
    while remaining != {}
      invariant remaining <= outs.Keys
      invariant multiset(order) + multiset(remaining) == multiset(outs.Keys)
      invariant forall p | p in order :: p in outs
      invariant results == Flatten(order, outs)
      decreases |remaining|
    {
      var p :| p in remaining;
      var found := RunProvince(p, chosen[p], listOf, productsOf);
      results := results + found;
      MergeStep(order, remaining, outs, p);
      order := order + [p];
      remaining := remaining - {p};
    }
    assert multiset(remaining) == multiset{};
    return Success(results), order;
  }

  /** A ZMYY candidate is in the scan's result exactly when some selected province's walk found it. */
  lemma ZmMergeMembership(chosen: Codebook, order: seq<string>, listOf: ZmQuery -> ZmListReply,
                          productsOf: string -> ZmProductReply, c: Candidate)
    requires IsOrderOf(order, chosen.Keys)
    ensures forall p | p in order :: p in chosen
    ensures c in Flatten(order, ZmOutputs(chosen, listOf, productsOf)) <==>
      exists p :: p in chosen && c in ZmWorker(p, chosen[p], listOf, productsOf)
  {
    forall p | p in order ensures p in chosen {
      assert p in multiset(order);
    }
    forall p | p in chosen ensures p in order {
      assert p in multiset(chosen.Keys);
    }
    FlattenMember(order, ZmOutputs(chosen, listOf, productsOf), c);
  }
}
