/**
 * Records shared by both channel engines and the command line: the region
 * codebook, slot candidates, the constants of the resource package, the
 * error outcomes, and the merge of per-province worker outputs.
 */
module Domain {

  datatype Option<+T> = None | Some(value: T)

  datatype Result<+T> = Success(value: T) | Failure(error: Error)

  /** How a run ends when it does not end normally. */
  datatype Error =
    | CodebookMissing          // the codebook file does not exist: the logger's Fatal exits the process
    | CodebookUnreadable       // the codebook file exists but cannot be read or decoded
    | Panic(site: string)      // a runtime panic, e.g. a failed type assertion
    | TransportError(what: string)
    | ParseError(what: string)
    | RemoteRejected(what: string)
    | TargetNotFound           // no sniffed slot carries the configured seckill id
    | DeadlinePassed           // the clock is already at or past the slot's start

  /** One entry of the codebook: a city (or municipality) and its region code. */
  datatype City = City(name: string, code: string)

  /** The region codebook: province (or group) name to its cities. */
  type Codebook = map<string, seq<City>>

  /** What reading `./city.json` yields. */
  datatype CodebookFile = Absent | Unreadable | Loaded(book: Codebook)

  /**
   * A slot found by a probe: the string map each engine builds, with the
   * keys city, seckill, vaccine, hospital, start_time and source.
   */
  datatype Candidate = Candidate(
    city: string,
    seckill: string,
    vaccine: string,
    hospital: string,
    startTime: string,
    source: string)

  /** The success code of every YM reply envelope. */
  const OkCode := "0000"

  /** The keyword a vaccine name must contain to be reported. */
  const Keyword := "九价"

  const YmSource := "约苗"
  const ZmSource := "知苗易约"

  /** The municipalities and whether each one is probed. */
  const Municipality: map<string, bool> :=
    map["北京市" := true, "天津市" := true, "上海市" := true, "重庆市" := true]

  /** The special administrative regions and whether each one is probed. */
  const SpecialAdministrativeRegion: map<string, bool> := map["香港" := false]

  predicate IsMunicipality(name: string)
  {
    name in Municipality && Municipality[name]
  }

  predicate IsSpecialRegion(name: string)
  {
    name in SpecialAdministrativeRegion && SpecialAdministrativeRegion[name]
  }

  /** No special administrative region is switched on. */
  lemma NoSpecialRegion(name: string)
    ensures !IsSpecialRegion(name)
  {
  }

  /** `order` lists every key of `keys` exactly once (Go's map iteration order is any such list). */
  predicate IsOrderOf(order: seq<string>, keys: set<string>)
  {
    multiset(order) == multiset(keys)
  }

  /** The outputs of the workers, concatenated in the order given. */
  function Flatten<T>(order: seq<string>, outs: map<string, seq<T>>): seq<T>
    requires forall p | p in order :: p in outs
  {
    if |order| == 0 then [] else outs[order[0]] + Flatten(order[1..], outs)
  }

  lemma {:induction false} FlattenAppend<T>(o1: seq<string>, o2: seq<string>, outs: map<string, seq<T>>)
    requires forall p | p in o1 + o2 :: p in outs
    ensures Flatten(o1 + o2, outs) == Flatten(o1, outs) + Flatten(o2, outs)
  {
    if |o1| > 0 {
      assert (o1 + o2)[1..] == o1[1..] + o2;
      FlattenAppend(o1[1..], o2, outs);
    } else {
      assert o1 + o2 == o2;
    }
  }

  /** `s` with `f` applied to every element, built from the left: what an in-place rewrite loop leaves behind. */
  function Rewritten<T>(f: T -> T, s: seq<T>): seq<T>
  {
    if |s| == 0 then [] else Rewritten(f, s[..|s| - 1]) + [f(s[|s| - 1])]
  }

  /** Rewriting keeps the length and rewrites each element on its own. */
  lemma {:induction false} RewrittenAt<T>(f: T -> T, s: seq<T>)
    ensures |Rewritten(f, s)| == |s|
    ensures forall k :: 0 <= k < |s| ==> Rewritten(f, s)[k] == f(s[k])
  {
    if |s| > 0 {
      RewrittenAt(f, s[..|s| - 1]);
    }
  }

  /** Rewriting element `i` after the elements before it extends the rewritten prefix by one. */
  lemma RewriteNext<T>(f: T -> T, original: seq<T>, i: nat, before: seq<T>, x: T)
    requires i < |original| && before == Rewritten(f, original[..i]) + original[i..]
    requires x == f(original[i])
    ensures |before| == |original| && before[i] == original[i]
    ensures before[i := x] == Rewritten(f, original[..i + 1]) + original[i + 1..]
  {
    var prefix := Rewritten(f, original[..i]);
    RewrittenAt(f, original[..i]);
    assert original[..i + 1][..i] == original[..i];
    assert Rewritten(f, original[..i + 1]) == prefix + [x];
    assert original[i..] == [original[i]] + original[i + 1..];
    assert before[i := x] == prefix + [x] + original[i + 1..];
  }

  /** Writing back the element a position already holds changes nothing. */
  lemma UpdateSame<T>(s: seq<T>, i: nat, x: T)
    requires i < |s| && s[i] == x
    ensures s[i := x] == s
  {
  }

  /** After rewriting the first `n` elements, those hold their rewritten values and the rest are as they were. */
  lemma RewrittenPrefix<T>(f: T -> T, original: seq<T>, n: nat, now: seq<T>)
    requires n <= |original| && now == Rewritten(f, original[..n]) + original[n..]
    ensures |now| == |original|
    ensures forall k :: 0 <= k < |now| ==> now[k] == if k < n then f(original[k]) else original[k]
  {
    RewrittenAt(f, original[..n]);
  }

  /** One more worker's output merged: its province joins the order and leaves the provinces still to come. */
  lemma MergeStep<T>(order: seq<string>, remaining: set<string>, outs: map<string, seq<T>>, p: string)
    requires p in remaining && remaining <= outs.Keys
    requires multiset(order) + multiset(remaining) == multiset(outs.Keys)
    requires forall q | q in order :: q in outs
    ensures multiset(order + [p]) + multiset(remaining - {p}) == multiset(outs.Keys)
    ensures forall q | q in order + [p] :: q in outs
    ensures Flatten(order + [p], outs) == Flatten(order, outs) + outs[p]
  {
    FlattenAppend(order, [p], outs);
    assert multiset(remaining - {p}) == multiset(remaining) - multiset{p};
    assert Flatten([p], outs) == outs[p] + Flatten([], outs);
    assert outs[p] + [] == outs[p];
  }

  /** Taking the worker at position `k` out of the order takes exactly its output out of the merge. */
  lemma FlattenRemove<T>(o: seq<string>, k: nat, outs: map<string, seq<T>>)
    requires k < |o|
    requires forall p | p in o :: p in outs
    ensures forall p | p in o[..k] + o[k + 1..] :: p in outs
    ensures multiset(Flatten(o, outs)) == multiset(outs[o[k]]) + multiset(Flatten(o[..k] + o[k + 1..], outs))
  {
    assert o == o[..k] + ([o[k]] + o[k + 1..]);
    FlattenAppend(o[..k], [o[k]] + o[k + 1..], outs);
    FlattenAppend(o[..k], o[k + 1..], outs);
    assert ([o[k]] + o[k + 1..])[1..] == o[k + 1..];
  }

  /** Removing one occurrence of the same element from two permutations leaves permutations. */
  lemma RemoveFromPermutation(o1: seq<string>, o2: seq<string>, k: nat)
    requires |o1| > 0 && k < |o2| && o2[k] == o1[0]
    requires multiset(o1) == multiset(o2)
    ensures multiset(o1[1..]) == multiset(o2[..k] + o2[k + 1..])
  {
    var x, a, b := o1[0], o2[..k], o2[k + 1..];
    assert o1 == [x] + o1[1..];
    assert o2 == a + [x] + b;
    calc {
      multiset(o1[1..]);
      multiset(o1) - multiset{x};
      multiset(a) + multiset{x} + multiset(b) - multiset{x};
      multiset(a) + multiset(b);
      multiset(a + b);
    }
  }

  /**
   * The merged result does not depend on the order in which the workers'
   * outputs arrive: any two orders of the same provinces give the same
   * multiset of candidates.
   */
  lemma {:induction false} FlattenPermutation<T>(o1: seq<string>, o2: seq<string>, outs: map<string, seq<T>>)
    requires forall p | p in o1 :: p in outs
    requires multiset(o1) == multiset(o2)
    ensures forall p | p in o2 :: p in outs
    ensures multiset(Flatten(o1, outs)) == multiset(Flatten(o2, outs))
    decreases |o1|
  {
    forall p | p in o2 ensures p in outs {
      assert p in multiset(o2);
    }
    if |o1| > 0 {
      assert o1[0] in multiset(o2);
      var k :| 0 <= k < |o2| && o2[k] == o1[0];
      RemoveFromPermutation(o1, o2, k);
      FlattenPermutation(o1[1..], o2[..k] + o2[k + 1..], outs);
      FlattenRemove(o2, k, outs);
    }
  }

  /** A candidate is in the merged result exactly when some listed worker produced it. */
  lemma {:induction false} FlattenMember<T>(order: seq<string>, outs: map<string, seq<T>>, c: T)
    requires forall p | p in order :: p in outs
    ensures c in Flatten(order, outs) <==> exists p :: p in order && c in outs[p]
  {
    if |order| > 0 {
      FlattenMember(order[1..], outs, c);
      assert forall p :: p in order <==> p == order[0] || p in order[1..];
    }
  }
}
