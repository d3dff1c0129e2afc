/**
 * The YM (约苗) channel's scan: one worker per selected province probes its
 * cities one after another and keeps the upcoming nine-valent slots; the
 * workers' lists are merged into one result.
 */
module YuemiaoSniff {
  import opened Domain
  import opened Strings
  import Regions

  /** One slot record of a YM list reply, with the fields the engine reads. */
  datatype YmItem = YmItem(id: string, name: string, startTime: string, vaccineName: Option<string>)

  /** A YM list reply: a failed request, an undecodable body, or a decoded envelope. */
  datatype YmReply =
    | YmTransportError
    | YmParseError
    | YmEnvelope(code: string, ok: bool, data: seq<YmItem>)

  /** A reply the worker goes on with: code `0000` and `ok` set. */
  predicate Accepted(reply: YmReply)
  {
    reply.YmEnvelope? && reply.code == OkCode && reply.ok
  }

  /** The region code a city is probed with: municipalities get `01` appended. */
  function ProbeCode(city: City): string
  {
    if IsMunicipality(city.name) then city.code + "01" else city.code
  }

  /** The city record after the worker has rewritten its code in place. */
  function Probed(city: City): City
  {
    city.(code := ProbeCode(city))
  }

  /** An item is reported when it has not started yet and its vaccine name holds the keyword. */
  predicate Wanted(item: YmItem, nowSec: int, toEpoch: string -> int)
  {
    toEpoch(item.startTime) >= nowSec &&
    item.vaccineName.Some? && Contains(item.vaccineName.value, Keyword)
  }

  /** The candidate a reported item becomes. */
  function CandidateOf(cityName: string, item: YmItem): Candidate
    requires item.vaccineName.Some?
  {
    Candidate(cityName, item.id, item.vaccineName.value, item.name, item.startTime, YmSource)
  }

  /** What one item contributes: past items and items without the keyword are dropped. */
  function Pick(cityName: string, item: YmItem, nowSec: int, toEpoch: string -> int): seq<Candidate>
  {
    if toEpoch(item.startTime) < nowSec then []
    else if item.vaccineName.Some? && Contains(item.vaccineName.value, Keyword) then [CandidateOf(cityName, item)]
    else []
  }

  /** The three ways one item of a reply can go in the source as written. */
  datatype Verdict = Keep(candidate: Candidate) | Drop | Crash

  /**
   * The item filter as written, including its debug branch: with debug on,
   * an upcoming item without a vaccine name reaches the debug log's
   * conversion of the missing name to a string, which panics.
   */
  function PickAsWritten(cityName: string, item: YmItem, nowSec: int, toEpoch: string -> int, debug: bool): Verdict
  {
    if toEpoch(item.startTime) < nowSec then Drop
    else if item.vaccineName.Some? && Contains(item.vaccineName.value, Keyword) then Keep(CandidateOf(cityName, item))
    else if debug && item.vaccineName.None? then Crash
    else Drop
  }

  /**
   * The input that shows the debug-mode crash: an upcoming item without a
   * vaccine name crashes the scan as written, while the filter the model
   * uses drops it.
   */
  lemma NamelessItemCrashesInDebug(cityName: string, item: YmItem, nowSec: int, toEpoch: string -> int)
    requires toEpoch(item.startTime) >= nowSec && item.vaccineName.None?
    ensures PickAsWritten(cityName, item, nowSec, toEpoch, true) == Crash
    ensures PickAsWritten(cityName, item, nowSec, toEpoch, false) == Drop
    ensures Pick(cityName, item, nowSec, toEpoch) == []
  {
  }

  /** Apart from that crash, the filter the model uses agrees with the source in both modes. */
  lemma PickAgreesWhenNoCrash(cityName: string, item: YmItem, nowSec: int, toEpoch: string -> int, debug: bool)
    ensures PickAsWritten(cityName, item, nowSec, toEpoch, debug) != Crash ==>
      Pick(cityName, item, nowSec, toEpoch) ==
        match PickAsWritten(cityName, item, nowSec, toEpoch, debug) case Keep(c) => [c] case _ => []
  {
  }

  /** The candidates one city's reply contributes, in reply order. */
  function CityPicks(cityName: string, items: seq<YmItem>, nowSec: int, toEpoch: string -> int): seq<Candidate>
  {
    if |items| == 0 then [] else Pick(cityName, items[0], nowSec, toEpoch) + CityPicks(cityName, items[1..], nowSec, toEpoch)
  }

  /**
   * A city's candidates are exactly its wanted items, each turned into a
   * candidate with the city's name and the YM source.
   */
  lemma {:induction false} CityPicksMembership(cityName: string, items: seq<YmItem>, nowSec: int, toEpoch: string -> int, c: Candidate)
    ensures c in CityPicks(cityName, items, nowSec, toEpoch) <==>
      exists k :: 0 <= k < |items| && Wanted(items[k], nowSec, toEpoch) && c == CandidateOf(cityName, items[k])
  {
    if |items| > 0 {
      CityPicksMembership(cityName, items[1..], nowSec, toEpoch, c);
      assert forall k :: 1 <= k < |items| ==> items[1..][k - 1] == items[k];
      if exists k :: 0 <= k < |items| && Wanted(items[k], nowSec, toEpoch) && c == CandidateOf(cityName, items[k]) {
        var k :| 0 <= k < |items| && Wanted(items[k], nowSec, toEpoch) && c == CandidateOf(cityName, items[k]);
        if k > 0 {
          assert Wanted(items[1..][k - 1], nowSec, toEpoch) && c == CandidateOf(cityName, items[1..][k - 1]);
        }
      }
    }
  }

  /** No candidate of a city starts before the probe's `now`, and every one holds the keyword. */
  lemma CityPicksAreUpcoming(cityName: string, items: seq<YmItem>, nowSec: int, toEpoch: string -> int)
    ensures forall c | c in CityPicks(cityName, items, nowSec, toEpoch) ::
      toEpoch(c.startTime) >= nowSec && Contains(c.vaccine, Keyword) && c.city == cityName && c.source == YmSource
  {
    forall c | c in CityPicks(cityName, items, nowSec, toEpoch)
      ensures toEpoch(c.startTime) >= nowSec && Contains(c.vaccine, Keyword) && c.city == cityName && c.source == YmSource
    {
      CityPicksMembership(cityName, items, nowSec, toEpoch, c);
    }
  }

  /**
   * What one worker sends: nothing at all (`None`) once any city's probe
   * fails, otherwise every city's candidates in city order.
   */
  function Worker(cities: seq<City>, probe: string -> YmReply, nowSec: int, toEpoch: string -> int): Option<seq<Candidate>>
  {
    if |cities| == 0 then Some([])
    else
      var reply := probe(ProbeCode(cities[0]));
      if !Accepted(reply) then None
      else match Worker(cities[1..], probe, nowSec, toEpoch)
        case None => None
        case Some(rest) => Some(CityPicks(cities[0].name, reply.data, nowSec, toEpoch) + rest)
  }

  /** How many cities the worker reaches (and rewrites): up to and including the first failing one. */
  function Visited(cities: seq<City>, probe: string -> YmReply): nat
  {
    if |cities| == 0 then 0
    else if !Accepted(probe(ProbeCode(cities[0]))) then 1
    else 1 + Visited(cities[1..], probe)
  }

  /**
   * A worker sends exactly when every city's probe is accepted, and what it
   * sends keeps earlier results only then: one failing city loses all.
   */
  lemma {:induction false} WorkerSendsIffAllAccepted(cities: seq<City>, probe: string -> YmReply, nowSec: int, toEpoch: string -> int)
    ensures Worker(cities, probe, nowSec, toEpoch).Some? <==>
      forall k :: 0 <= k < |cities| ==> Accepted(probe(ProbeCode(cities[k])))
    ensures Visited(cities, probe) <= |cities|
    ensures Worker(cities, probe, nowSec, toEpoch).None? ==>
      0 < Visited(cities, probe) && !Accepted(probe(ProbeCode(cities[Visited(cities, probe) - 1])))
  {
    if |cities| > 0 {
      WorkerSendsIffAllAccepted(cities[1..], probe, nowSec, toEpoch);
      assert forall k :: 1 <= k < |cities| ==> cities[1..][k - 1] == cities[k];
    }
  }

  function Prepend(prefix: seq<Candidate>, rest: Option<seq<Candidate>>): Option<seq<Candidate>>
  {
    match rest
    case None => None
    case Some(r) => Some(prefix + r)
  }

  lemma PrependNothing(rest: Option<seq<Candidate>>)
    ensures Prepend([], rest) == rest
    ensures rest.Some? ==> Prepend(rest.value, Some([])) == rest
  {
    if rest.Some? {
      assert [] + rest.value == rest.value;
      assert rest.value + [] == rest.value;
    }
  }

  /** One item more: what is picked so far, then that item's pick, then the rest of the reply. */
  lemma PickStep(cityName: string, items: seq<YmItem>, j: nat, nowSec: int, toEpoch: string -> int, picked: seq<Candidate>)
    requires j < |items|
    ensures picked + CityPicks(cityName, items[j..], nowSec, toEpoch) ==
      (picked + Pick(cityName, items[j], nowSec, toEpoch)) + CityPicks(cityName, items[j + 1..], nowSec, toEpoch)
  {
    assert items[j..][1..] == items[j + 1..];
  }

  /** The inner loop of `hasSeckill`: one accepted reply's items, filtered in order. */
  method CollectCity(cityName: string, items: seq<YmItem>, nowSec: int, toEpoch: string -> int)
    returns (picked: seq<Candidate>)
    ensures picked == CityPicks(cityName, items, nowSec, toEpoch)
  {
    picked := [];
    var j := 0;
    while j < |items|
      invariant 0 <= j <= |items|
      invariant picked + CityPicks(cityName, items[j..], nowSec, toEpoch) == CityPicks(cityName, items, nowSec, toEpoch)
    {
      var item := items[j];
      PickStep(cityName, items, j, nowSec, toEpoch, picked);
      if toEpoch(item.startTime) < nowSec {
        assert picked + [] == picked;
        j := j + 1;
        continue;
      }
      if item.vaccineName.Some? && Contains(item.vaccineName.value, Keyword) {
        picked := picked + [Candidate(cityName, item.id, item.vaccineName.value, item.name, item.startTime, YmSource)];
      } else {
        assert picked + [] == picked;
      }
      j := j + 1;
    }
    assert items[j..] == [];
  }

  /** An accepted city adds its candidates to what the worker will send, and counts as reached. */
  lemma WalkStep(original: seq<City>, i: nat, probe: string -> YmReply, nowSec: int, toEpoch: string -> int,
                 result: seq<Candidate>, picked: seq<Candidate>)
    requires i < |original| && Accepted(probe(ProbeCode(original[i])))
    requires picked == CityPicks(original[i].name, probe(ProbeCode(original[i])).data, nowSec, toEpoch)
    requires Worker(original, probe, nowSec, toEpoch) == Prepend(result, Worker(original[i..], probe, nowSec, toEpoch))
    requires Visited(original, probe) == i + Visited(original[i..], probe)
    ensures Worker(original, probe, nowSec, toEpoch) == Prepend(result + picked, Worker(original[i + 1..], probe, nowSec, toEpoch))
    ensures Visited(original, probe) == i + 1 + Visited(original[i + 1..], probe)
  {
    var rest := original[i..];
    assert rest[0] == original[i] && rest[1..] == original[i + 1..];
    match Worker(rest[1..], probe, nowSec, toEpoch)
    case None =>
    case Some(tail) =>
      assert result + (picked + tail) == (result + picked) + tail;
  }

  /** A failing city ends the worker there: nothing is sent, and it is the last city reached. */
  lemma WalkStop(original: seq<City>, i: nat, probe: string -> YmReply, nowSec: int, toEpoch: string -> int, result: seq<Candidate>)
    requires i < |original| && !Accepted(probe(ProbeCode(original[i])))
    requires Worker(original, probe, nowSec, toEpoch) == Prepend(result, Worker(original[i..], probe, nowSec, toEpoch))
    requires Visited(original, probe) == i + Visited(original[i..], probe)
    ensures Worker(original, probe, nowSec, toEpoch) == None
    ensures Visited(original, probe) == i + 1
  {
    assert original[i..][0] == original[i];
  }

  /** A worker that gets through the whole list sends everything it collected, having reached every city. */
  lemma WalkDone(original: seq<City>, probe: string -> YmReply, nowSec: int, toEpoch: string -> int, result: seq<Candidate>)
    requires Worker(original, probe, nowSec, toEpoch) == Prepend(result, Worker(original[|original|..], probe, nowSec, toEpoch))
    requires Visited(original, probe) == |original| + Visited(original[|original|..], probe)
    ensures Worker(original, probe, nowSec, toEpoch) == Some(result)
    ensures Visited(original, probe) == |original|
  {
    assert original[|original|..] == [];
    assert result + [] == result;
  }

  /**
   * One city of `hasSeckill`: a municipality's code gets `01` appended
   * before the probe; a transport error, an undecodable body or a rejected
   * envelope yields nothing, an accepted reply its filtered items.
   */
  method ProbeCity(city: City, probe: string -> YmReply, nowSec: int, toEpoch: string -> int)
    returns (probed: City, picked: Option<seq<Candidate>>)
    ensures probed == Probed(city) && probed.name == city.name
    ensures !IsMunicipality(city.name) ==> probed == city
    ensures picked.None? <==> !Accepted(probe(ProbeCode(city)))
    ensures picked.Some? ==> picked.value == CityPicks(city.name, probe(ProbeCode(city)).data, nowSec, toEpoch)
  {
    probed := city;
    if IsMunicipality(probed.name) {
      probed := probed.(code := probed.code + "01");
    }
    var reply := probe(probed.code);
    if reply.YmTransportError? || reply.YmParseError? {
      return probed, None;
    }
    if reply.code != OkCode || !reply.ok {
      return probed, None;
    }
    var items := CollectCity(probed.name, reply.data, nowSec, toEpoch);
    picked := Some(items);
  }

  /**
   * `hasSeckill`: probes the cities in order, rewriting each municipality's
   * code in place before its probe, and stops without sending at the first
   * transport error, undecodable body or rejected envelope.
   */
  method HasSeckill(province: string, cities: array<City>, probe: string -> YmReply, nowSec: int, toEpoch: string -> int)
    returns (sent: Option<seq<Candidate>>, ghost visited: nat)
    modifies cities
    ensures sent == Worker(old(cities[..]), probe, nowSec, toEpoch)
    ensures visited == Visited(old(cities[..]), probe)
    ensures visited <= cities.Length
    ensures cities[..] == Rewritten(Probed, old(cities[..])[..visited]) + old(cities[..])[visited..]
  {
    ghost var original := cities[..];
    var result: seq<Candidate> := [];
    var i := 0;
    assert original[0..] == original;
    assert original[..0] == [];
    PrependNothing(Worker(original, probe, nowSec, toEpoch));
    while i < cities.Length
      invariant 0 <= i <= cities.Length
      invariant cities[..] == Rewritten(Probed, original[..i]) + original[i..]
      invariant Worker(original, probe, nowSec, toEpoch) == Prepend(result, Worker(original[i..], probe, nowSec, toEpoch))
      invariant Visited(original, probe) == i + Visited(original[i..], probe)
    {
      ghost var before := cities[..];
      RewriteNext(Probed, original, i, before, Probed(original[i]));
      var probed, picked := ProbeCity(cities[i], probe, nowSec, toEpoch);
      if IsMunicipality(probed.name) {
        cities[i] := probed;
      } else {
        UpdateSame(before, i, probed);
      }
      if picked.None? {
        WalkStop(original, i, probe, nowSec, toEpoch, result);
        return None, i + 1;
      }
      WalkStep(original, i, probe, nowSec, toEpoch, result, picked.value);
      result := result + picked.value;
      i := i + 1;
    }
    WalkDone(original, probe, nowSec, toEpoch, result);
    assert original[..i] == original;
    return Some(result), i;
  }


  /** One province's worker run on a fresh copy of its city list; what it contributes to the merge. */
  method RunWorker(province: string, cities: seq<City>, probe: string -> YmReply, nowSec: int, toEpoch: string -> int)
    returns (contribution: seq<Candidate>)
    ensures contribution == match Worker(cities, probe, nowSec, toEpoch) case Some(r) => r case None => []
  {
    var buffer := new City[|cities|](k requires 0 <= k < |cities| => cities[k]);
    assert buffer[..] == cities;
    ghost var visited;
    var sent;
    sent, visited := HasSeckill(province, buffer, probe, nowSec, toEpoch);
    contribution := if sent.Some? then sent.value else [];
  }

  /** Each selected province's contribution to the merge: what its worker sent, or nothing. */
  function Outputs(chosen: Codebook, probe: string -> YmReply, nowSec: int, toEpoch: string -> int): (outs: map<string, seq<Candidate>>)
    ensures outs.Keys == chosen.Keys
  {
    map p | p in chosen :: match Worker(chosen[p], probe, nowSec, toEpoch) case Some(r) => r case None => []
  }

  /**
   * `Sniff`: loads the codebook, applies the region filter, runs one worker
   * per selected province and concatenates what the workers send, in the
   * order they arrive (any order of the provinces).
   */
  method Sniff(file: CodebookFile, regions: seq<string>, probe: string -> YmReply, nowSec: int, toEpoch: string -> int)
    returns (r: Result<seq<Candidate>>, ghost order: seq<string>)
    ensures file.Absent? ==> r == Failure(CodebookMissing)
    ensures file.Unreadable? ==> r == Failure(CodebookUnreadable)
    ensures file.Loaded? && Regions.Select(file.book, regions).Failure? ==>
      r == Failure(Regions.Select(file.book, regions).error)
    ensures file.Loaded? && Regions.Select(file.book, regions).Success? ==>
      var chosen := Regions.Select(file.book, regions).value.chosen;
      IsOrderOf(order, chosen.Keys) && (forall p | p in order :: p in chosen) &&
      r == Success(Flatten(order, Outputs(chosen, probe, nowSec, toEpoch)))
  {
    order := [];
    if file.Absent? {
      return Failure(CodebookMissing), order;
    }
    if file.Unreadable? {
      return Failure(CodebookUnreadable), order;
    }
    var selection := Regions.SelectRegions(file.book, regions);
    if selection.Failure? {
      return Failure(selection.error), order;
    }
    var chosen := selection.value.chosen;
    ghost var outs := Outputs(chosen, probe, nowSec, toEpoch);
    var remaining := chosen.Keys;
    var results: seq<Candidate> := [];
    while remaining != {}
      invariant remaining <= outs.Keys
      invariant multiset(order) + multiset(remaining) == multiset(outs.Keys)
      invariant forall p | p in order :: p in outs
      invariant results == Flatten(order, outs)
      decreases |remaining|
    {
      var p :| p in remaining;
      var contribution := RunWorker(p, chosen[p], probe, nowSec, toEpoch);
      results := results + contribution;
      MergeStep(order, remaining, outs, p);
      order := order + [p];
      remaining := remaining - {p};
    }
    assert multiset(remaining) == multiset{};
    return Success(results), order;
  }

  /** Whatever order the workers' lists arrive in, the merged result holds the same candidates. */
  lemma MergeIgnoresOrder(chosen: Codebook, o1: seq<string>, o2: seq<string>, probe: string -> YmReply, nowSec: int, toEpoch: string -> int)
    requires IsOrderOf(o1, chosen.Keys) && IsOrderOf(o2, chosen.Keys)
    ensures forall p | p in o1 + o2 :: p in chosen
    ensures multiset(Flatten(o1, Outputs(chosen, probe, nowSec, toEpoch))) ==
            multiset(Flatten(o2, Outputs(chosen, probe, nowSec, toEpoch)))
  {
    forall p | p in o1 + o2 ensures p in chosen {
      assert p in multiset(o1) || p in multiset(o2);
    }
    FlattenPermutation(o1, o2, Outputs(chosen, probe, nowSec, toEpoch));
  }

  /** A merged candidate came from some province whose worker sent it, and every sent candidate is merged. */
  lemma MergeMembership(chosen: Codebook, order: seq<string>, probe: string -> YmReply, nowSec: int, toEpoch: string -> int, c: Candidate)
    requires IsOrderOf(order, chosen.Keys)
    ensures forall p | p in order :: p in chosen
    ensures c in Flatten(order, Outputs(chosen, probe, nowSec, toEpoch)) <==>
      exists p :: p in chosen && Worker(chosen[p], probe, nowSec, toEpoch).Some? &&
        c in Worker(chosen[p], probe, nowSec, toEpoch).value
  {
    forall p | p in order ensures p in chosen {
      assert p in multiset(order);
    }
    forall p | p in chosen ensures p in order {
      assert p in multiset(chosen.Keys);
    }
    FlattenMember(order, Outputs(chosen, probe, nowSec, toEpoch), c);
  }
}
