/**
 * `FetchCityCode`: builds the region codebook from YM's province list and
 * each province's child regions. Municipalities are gathered under one
 * group, switched-on special administrative regions under another, and
 * every other province gets its own child cities.
 */
module YuemiaoCodebook {
  import opened Domain

  /** The group key of the municipalities. */
  const MunicipalityGroup := "直辖市"

  /** The group key of the special administrative regions. */
  const SpecialGroup := "特别行政区"

  /** A decoded reply of the province list. */
  datatype ProvinceReply =
    | ProvinceTransportError
    | ProvinceParseError
    | ProvinceEnvelope(code: string, ok: bool, data: seq<City>)

  /** A decoded reply of one province's child regions; its envelope fields are not read. */
  datatype ChildReply = ChildTransportError | ChildParseError | ChildList(items: seq<City>)

  /** A province that is neither a municipality nor a special administrative region. */
  predicate IsRegular(name: string)
  {
    name !in Municipality && name !in SpecialAdministrativeRegion
  }

  /** `book` with `cs` appended to the list under `key`, creating the key when absent. */
  function Append(book: Codebook, key: string, cs: seq<City>): (r: Codebook)
    ensures r.Keys == book.Keys + {key}
    ensures forall k | k in book && k != key :: r[k] == book[k]
  {
    book[key := (if key in book then book[key] else []) + cs]
  }

  /** What one province entry adds to the codebook. */
  function AddProvince(book: Codebook, p: City, children: string -> ChildReply): Result<Codebook>
  {
    if p.name in Municipality then
      if !Municipality[p.name] then Success(book) else Success(Append(book, MunicipalityGroup, [p]))
    else if p.name in SpecialAdministrativeRegion then
      if !SpecialAdministrativeRegion[p.name] then Success(book)
      else Success(Append(book, SpecialGroup, [p.(code := p.code + "01")]))
    else match children(p.code)
      case ChildTransportError => Failure(TransportError("child regions"))
      case ChildParseError => Failure(ParseError("child regions"))
      case ChildList(items) => Success(if |items| == 0 then book else Append(book, p.name, items))
  }

  /** The codebook built from the province entries in order; the first failing child request ends it. */
  function Group(provinces: seq<City>, children: string -> ChildReply): Result<Codebook>
  {
    if |provinces| == 0 then Success(map[])
    else match Group(provinces[..|provinces| - 1], children)
      case Failure(e) => Failure(e)
      case Success(book) => AddProvince(book, provinces[|provinces| - 1], children)
  }

  /** The child cities recorded for a regular province `name`, over all its entries. */
  function ChildrenOf(provinces: seq<City>, name: string, children: string -> ChildReply): seq<City>
  {
    if |provinces| == 0 then []
    else
      var p := provinces[|provinces| - 1];
      ChildrenOf(provinces[..|provinces| - 1], name, children) +
      (if p.name == name && IsRegular(name) && children(p.code).ChildList? then children(p.code).items else [])
  }

  /** The switched-on municipality entries, in order. */
  function Municipalities(provinces: seq<City>): seq<City>
  {
    if |provinces| == 0 then []
    else
      var p := provinces[|provinces| - 1];
      Municipalities(provinces[..|provinces| - 1]) + (if IsMunicipality(p.name) then [p] else [])
  }

  /** A child request that fails. */
  predicate ChildFails(p: City, children: string -> ChildReply)
  {
    IsRegular(p.name) && !children(p.code).ChildList?
  }

  /**
   * The codebook as intended: a failed, undecodable or rejected province
   * list is an error, as is a failed or undecodable child list.
   */
  function Fetch(reply: ProvinceReply, children: string -> ChildReply): Result<Codebook>
  {
    match reply
    case ProvinceTransportError => Failure(TransportError("provinces"))
    case ProvinceParseError => Failure(ParseError("provinces"))
    case ProvinceEnvelope(code, ok, data) =>
      if code != OkCode || !ok then Failure(RemoteRejected("provinces")) else Group(data, children)
  }

  /**
   * The codebook as written: a rejected province list returns the error
   * variable, which is nil there, together with a nil map, so the caller
   * takes it for an empty codebook and writes it to the codebook file.
   */
  function FetchAsWritten(reply: ProvinceReply, children: string -> ChildReply): Result<Codebook>
  {
    match reply
    case ProvinceEnvelope(code, ok, data) =>
      if code != OkCode || !ok then Success(map[]) else Group(data, children)
    case _ => Fetch(reply, children)
  }

  /**
   * The input that shows it: a rejected province list, as written, is not
   * told apart from an accepted but empty one.
   */
  lemma RejectedListLooksEmpty(code: string, ok: bool, data: seq<City>, children: string -> ChildReply)
    requires code != OkCode || !ok
    ensures FetchAsWritten(ProvinceEnvelope(code, ok, data), children) ==
            FetchAsWritten(ProvinceEnvelope(OkCode, true, []), children) == Success(map[])
    ensures Fetch(ProvinceEnvelope(code, ok, data), children) == Failure(RemoteRejected("provinces"))
  {
  }

  /** The corrected fetch succeeds only on an accepted list, and otherwise agrees with the source. */
  lemma FetchSucceedsOnlyWhenAccepted(reply: ProvinceReply, children: string -> ChildReply)
    ensures Fetch(reply, children).Success? ==> reply.ProvinceEnvelope? && reply.code == OkCode && reply.ok
    ensures Fetch(reply, children).Success? ==> Fetch(reply, children) == FetchAsWritten(reply, children)
    ensures Fetch(reply, children).Failure? && FetchAsWritten(reply, children).Failure? ==>
      Fetch(reply, children) == FetchAsWritten(reply, children)
  {
  }

  /** Once a child request has failed, later entries leave the failure as it is. */
  lemma {:induction false} GroupFailureSticks(provinces: seq<City>, n: nat, children: string -> ChildReply)
    requires n <= |provinces| && Group(provinces[..n], children).Failure?
    ensures Group(provinces, children) == Group(provinces[..n], children)
    decreases |provinces| - n
  {
    if n < |provinces| {
      assert provinces[..n + 1][..n] == provinces[..n];
      GroupFailureSticks(provinces, n + 1, children);
    } else {
      assert provinces[..n] == provinces;
    }
  }

  /** The codebook fails exactly when some regular province's child request fails. */
  lemma {:induction false} GroupFailsOnChild(provinces: seq<City>, children: string -> ChildReply)
    ensures Group(provinces, children).Failure? <==>
      exists i :: 0 <= i < |provinces| && ChildFails(provinces[i], children)
  {
    if |provinces| > 0 {
      var init := provinces[..|provinces| - 1];
      GroupFailsOnChild(init, children);
      assert forall i :: 0 <= i < |init| ==> init[i] == provinces[i];
      if exists i :: 0 <= i < |provinces| && ChildFails(provinces[i], children) {
        var i :| 0 <= i < |provinces| && ChildFails(provinces[i], children);
        if i < |init| {
          assert ChildFails(init[i], children);
        }
      }
    }
  }

  /** Every list in the codebook is non-empty: a key exists only once something was appended to it. */
  lemma {:induction false} GroupListsNonEmpty(provinces: seq<City>, children: string -> ChildReply)
    ensures Group(provinces, children).Success? ==>
      forall k | k in Group(provinces, children).value :: |Group(provinces, children).value[k]| > 0
  {
    if |provinces| > 0 {
      GroupListsNonEmpty(provinces[..|provinces| - 1], children);
    }
  }

  /**
   * A regular province's list is all the child cities of its entries, in
   * order, and the province has a key exactly when that list is non-empty.
   */
  lemma {:induction false} GroupRegularContents(provinces: seq<City>, children: string -> ChildReply, name: string)
    requires name != MunicipalityGroup && name != SpecialGroup
    requires Group(provinces, children).Success?
    ensures var book := Group(provinces, children).value;
      (name in book <==> ChildrenOf(provinces, name, children) != []) &&
      (name in book ==> book[name] == ChildrenOf(provinces, name, children))
  {
    if |provinces| > 0 {
      var init := provinces[..|provinces| - 1];
      var p := provinces[|provinces| - 1];
      assert Group(init, children).Success?;
      GroupRegularContents(init, children, name);
      var before := Group(init, children).value;
      var added := if p.name == name && IsRegular(name) && children(p.code).ChildList? then children(p.code).items else [];
      assert ChildrenOf(provinces, name, children) == ChildrenOf(init, name, children) + added;
      AddProvinceRegular(before, p, children, name);
      if name in before {
        assert ChildrenOf(init, name, children) != [];
      }
    }
  }

  /** What one province entry does to the key of a regular province `name`. */
  lemma AddProvinceRegular(book: Codebook, p: City, children: string -> ChildReply, name: string)
    requires name != MunicipalityGroup && name != SpecialGroup
    requires AddProvince(book, p, children).Success?
    ensures var added := if p.name == name && IsRegular(name) && children(p.code).ChildList? then children(p.code).items else [];
      var after := AddProvince(book, p, children).value;
      (name in after <==> name in book || added != []) &&
      (name in after ==> after[name] == (if name in book then book[name] else []) + added)
  {
  }

  /**
   * Provided no province is itself named after the group, the municipality
   * group lists exactly the switched-on municipalities, with their codes
   * unchanged, and exists exactly when there is one.
   */
  lemma {:induction false} GroupMunicipalities(provinces: seq<City>, children: string -> ChildReply)
    requires forall i :: 0 <= i < |provinces| ==> provinces[i].name != MunicipalityGroup
    requires Group(provinces, children).Success?
    ensures var book := Group(provinces, children).value;
      (MunicipalityGroup in book <==> Municipalities(provinces) != []) &&
      (MunicipalityGroup in book ==> book[MunicipalityGroup] == Municipalities(provinces))
  {
    if |provinces| > 0 {
      var init := provinces[..|provinces| - 1];
      assert Group(init, children).Success?;
      GroupMunicipalities(init, children);
      if MunicipalityGroup in Group(init, children).value {
        assert Municipalities(init) != [];
      }
    }
  }

  /**
   * Provided no province is itself named after the group, the special
   * region group never appears: the only special region is switched off.
   */
  lemma {:induction false} NoSpecialGroupInBook(provinces: seq<City>, children: string -> ChildReply)
    requires forall i :: 0 <= i < |provinces| ==> provinces[i].name != SpecialGroup
    requires Group(provinces, children).Success?
    ensures SpecialGroup !in Group(provinces, children).value
  {
    if |provinces| > 0 {
      var init := provinces[..|provinces| - 1];
      assert Group(init, children).Success?;
      NoSpecialGroupInBook(init, children);
      NoSpecialRegion(provinces[|provinces| - 1].name);
    }
  }

  /**
   * The child-region loop for one regular province: each child city is
   * appended under the province's name, the key being created with the
   * first one.
   */
  method AddChildren(book: Codebook, name: string, items: seq<City>) returns (r: Codebook)
    ensures r == if |items| == 0 then book else Append(book, name, items)
  {
    r := book;
    var j := 0;
    while j < |items|
      invariant 0 <= j <= |items|
      invariant r == if j == 0 then book else Append(book, name, items[..j])
    {
      ghost var base := if name in book then book[name] else [];
      assert items[..j + 1] == items[..j] + [items[j]];
      if name !in r {
        r := r[name := []];
      }
      assert r[name] == base + items[..j];
      r := r[name := r[name] + [items[j]]];
      assert r[name] == base + items[..j + 1];
      assert r == Append(book, name, items[..j + 1]);
      j := j + 1;
    }
    assert items[..j] == items;
  }

  /**
   * One province entry of the fetch loop: a switched-on municipality or
   * special region joins its group, and every other province has its child
   * regions requested and appended under its own name.
   */
  method GroupProvince(book: Codebook, p: City, children: string -> ChildReply) returns (r: Result<Codebook>)
    ensures r == AddProvince(book, p, children)
    ensures r.Failure? <==> ChildFails(p, children)
  {
    if p.name in Municipality {
      if Municipality[p.name] {
        return Success(Append(book, MunicipalityGroup, [p]));
      }
    } else if p.name in SpecialAdministrativeRegion {
      if SpecialAdministrativeRegion[p.name] {
        return Success(Append(book, SpecialGroup, [p.(code := p.code + "01")]));
      }
    } else {
      var sub := children(p.code);
      if sub.ChildTransportError? {
        return Failure(TransportError("child regions"));
      }
      if sub.ChildParseError? {
        return Failure(ParseError("child regions"));
      }
      var grown := AddChildren(book, p.name, sub.items);
      return Success(grown);
    }
    return Success(book);
  }

  /**
   * `FetchCityCode` with the province-list check corrected: requests the
   * province list, then walks it, grouping municipalities and special
   * regions and requesting every other province's child regions.
   */
  method FetchCityCode(reply: ProvinceReply, children: string -> ChildReply) returns (r: Result<Codebook>)
    ensures r == Fetch(reply, children)
  {
    if reply.ProvinceTransportError? {
      return Failure(TransportError("provinces"));
    }
    if reply.ProvinceParseError? {
      return Failure(ParseError("provinces"));
    }
    if reply.code != OkCode || !reply.ok {
      return Failure(RemoteRejected("provinces"));
    }
    var provinces := reply.data;
    var cityCodes: Codebook := map[];
    var i := 0;
    while i < |provinces|
      invariant 0 <= i <= |provinces|
      invariant Group(provinces[..i], children) == Success(cityCodes)
    {
      assert provinces[..i + 1][..i] == provinces[..i] && provinces[..i + 1][i] == provinces[i];
      var next := GroupProvince(cityCodes, provinces[i], children);
      if next.Failure? {
        GroupFailureSticks(provinces, i + 1, children);
        return next;
      }
      cityCodes := next.value;
      i := i + 1;
    }
    assert provinces[..i] == provinces;
    return Success(cityCodes);
  }
}
