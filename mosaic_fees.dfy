/**
 * The transfer fee for a list of mosaics: for each entry, the definitions
 * registered under its namespace are scanned for the first one with the
 * entry's name, that definition is priced as flat-fee or regular, and the
 * prices are summed.
 */
module MosaicFees {
  import opened Wrappers
  import opened ByteOrder
  import opened MosaicEncoding

  /** One base fee unit, in micro-units. */
  const FeeUnit := 1_000_000
  /** What a flat-fee (small-supply, indivisible) mosaic costs. */
  const FlatFee := 1_000_000
  /** The floor under the total fee. */
  const MinimumFee := 1_000_000
  /** The largest supply a flat-fee mosaic may have. */
  const SmallSupply := 10_000
  /** The largest number of fee units the xem-equivalent may cost. */
  const MaxXemUnits := 25

  /**
   * A mosaic definition as the registry returns it; divisibility and supply
   * are the values of its first and second properties.
   */
  datatype Definition = Definition(nameSpaceId: seq<byte>, mosaicName: seq<byte>, divisibility: int, supply: int)

  /**
   * The remote lookup: each namespace id maps to the definitions registered
   * under it, in the order they are returned. A namespace absent from the
   * map is a lookup that fails.
   */
  type Registry = map<seq<byte>, seq<Definition>>

  datatype LookupFailure = NamespaceUnavailable(nameSpaceId: seq<byte>)

  /**
   * The floating-point parts of the regular-class formula, as integers:
   * xemUnits(q, d, s) is the xem equivalent of quantity q, rounded up to
   * whole units, and supplyAdjustment(d, s) is the supply-related reduction
   * in micro-units.
   */
  datatype Pricing = Pricing(xemUnits: (uint64, int, int) -> int, supplyAdjustment: (int, int) -> int)

  function Max(a: int, b: int): int { if a < b then b else a }

  function Min(a: int, b: int): int { if a < b then a else b }

  /** The position of the first definition named name, if any. */
  function FirstMatch(defs: seq<Definition>, name: seq<byte>): (r: Option<nat>)
    ensures r.None? <==> forall i :: 0 <= i < |defs| ==> defs[i].mosaicName != name
    ensures r.Some? ==> r.value < |defs| && defs[r.value].mosaicName == name
    ensures r.Some? ==> forall i :: 0 <= i < r.value ==> defs[i].mosaicName != name
  {
    if defs == [] then None
    else if defs[0].mosaicName == name then Some(0)
    else
      match FirstMatch(defs[1..], name)
      case None => None
      case Some(k) => Some(k + 1)
  }

  /** A small-supply, indivisible mosaic: charged the flat fee. */
  predicate IsFlatFee(d: Definition)
  {
    d.supply <= SmallSupply && d.divisibility == 0
  }

  /** The xem-equivalent fee: the unit count clamped to 1..25, in micro-units. */
  function XemFee(units: int): (r: int)
    ensures FeeUnit <= r <= MaxXemUnits * FeeUnit
    ensures r % FeeUnit == 0
    ensures 1 <= units <= MaxXemUnits ==> r == units * FeeUnit
    ensures units < 1 ==> r == FeeUnit
    ensures units > MaxXemUnits ==> r == MaxXemUnits * FeeUnit
  {
    Max(1, Min(units, MaxXemUnits)) * FeeUnit
  }

  /** The xem-equivalent fee less the supply adjustment, never below 1. */
  function RegularFee(xemFee: int, adjustment: int): (r: int)
    ensures r >= 1
    ensures r >= xemFee - adjustment
    ensures xemFee - adjustment >= 1 ==> r == xemFee - adjustment
    ensures xemFee - adjustment < 1 ==> r == 1
  {
    Max(1, xemFee - adjustment)
  }

  /** The price of sending quantity q of the mosaic that definition d describes. */
  function DefinitionFee(q: uint64, d: Definition, pricing: Pricing): (r: int)
    ensures r >= 1
    ensures IsFlatFee(d) ==> r == FlatFee
    ensures !IsFlatFee(d) ==> r <= MaxXemUnits * FeeUnit - pricing.supplyAdjustment(d.divisibility, d.supply) || r == 1
  {
    if IsFlatFee(d) then FlatFee
    else
      RegularFee(XemFee(pricing.xemUnits(q, d.divisibility, d.supply)),
                 pricing.supplyAdjustment(d.divisibility, d.supply))
  }

  /** What one entry adds to the total, given the definitions of its namespace. */
  function Contribution(m: Mosaic, defs: seq<Definition>, pricing: Pricing): (r: int)
    ensures r >= 0
  {
    match FirstMatch(defs, m.mosaicName)
    case None => 0
    case Some(k) => DefinitionFee(m.quantity, defs[k], pricing)
  }

  /** Every entry's namespace can be looked up. */
  predicate Available(ms: seq<Mosaic>, registry: Registry)
  {
    forall i :: 0 <= i < |ms| ==> ms[i].nameSpaceId in registry
  }

  /** The sum of the entries' contributions, each priced from its own lookup. */
  function SumContributions(ms: seq<Mosaic>, registry: Registry, pricing: Pricing): (r: int)
    requires Available(ms, registry)
    ensures r >= 0
  {
    if ms == [] then 0
    else Contribution(ms[0], registry[ms[0].nameSpaceId], pricing) + SumContributions(ms[1..], registry, pricing)
  }

  /** The first entry whose namespace lookup fails. */
  function FirstUnavailable(ms: seq<Mosaic>, registry: Registry): (k: nat)
    requires !Available(ms, registry)
    ensures k < |ms| && ms[k].nameSpaceId !in registry
    ensures Available(ms[..k], registry)
  {
    if ms[0].nameSpaceId !in registry then 0
    else
      var k := FirstUnavailable(ms[1..], registry);
      assert ms[..k + 1] == [ms[0]] + ms[1..][..k];
      k + 1
  }

  /**
   * The accumulated fee of a whole list, before the floor: the sum of the
   * contributions, or the failure of the first lookup that fails.
   */
  function TransferFee(ms: seq<Mosaic>, registry: Registry, pricing: Pricing): (r: Result<int, LookupFailure>)
    ensures r.Ok? <==> Available(ms, registry)
    ensures r.Ok? ==> r.value >= 0
    ensures r.Err? ==> r.error.nameSpaceId !in registry
  {
    if Available(ms, registry) then Ok(SumContributions(ms, registry, pricing))
    else Err(NamespaceUnavailable(ms[FirstUnavailable(ms, registry)].nameSpaceId))
  }

  // ---- Properties of the per-entry scan ----

  /** An entry contributes something exactly when some definition carries its name. */
  lemma ContributesIffMatched(m: Mosaic, defs: seq<Definition>, pricing: Pricing)
    ensures Contribution(m, defs, pricing) > 0 <==> exists i :: 0 <= i < |defs| && defs[i].mosaicName == m.mosaicName
  {
  }

  /** A definition with another name is skipped: putting it in front changes nothing. */
  lemma OtherNamesSkipped(m: Mosaic, d: Definition, defs: seq<Definition>, pricing: Pricing)
    requires d.mosaicName != m.mosaicName
    ensures Contribution(m, [d] + defs, pricing) == Contribution(m, defs, pricing)
  {
    assert ([d] + defs)[1..] == defs;
  }

  /** Scanning stops at the first match: definitions after it, even with the same name, are ignored. */
  lemma {:induction false} LaterDefinitionsIgnored(m: Mosaic, defs: seq<Definition>, more: seq<Definition>, pricing: Pricing)
    requires FirstMatch(defs, m.mosaicName).Some?
    ensures FirstMatch(defs + more, m.mosaicName) == FirstMatch(defs, m.mosaicName)
    ensures Contribution(m, defs + more, pricing) == Contribution(m, defs, pricing)
  {
    if defs[0].mosaicName != m.mosaicName {
      assert (defs + more)[1..] == defs[1..] + more;
      LaterDefinitionsIgnored(m, defs[1..], more, pricing);
    }
  }

  /**
   * Sending more of a mosaic never costs less, as long as the rounded-up xem
   * equivalent does not shrink with the quantity: the clamp and the floor at
   * 1 are both monotone.
   */
  lemma DefinitionFeeMonotone(q1: uint64, q2: uint64, d: Definition, pricing: Pricing)
    requires q1 <= q2
    requires pricing.xemUnits(q1, d.divisibility, d.supply) <= pricing.xemUnits(q2, d.divisibility, d.supply)
    ensures DefinitionFee(q1, d, pricing) <= DefinitionFee(q2, d, pricing)
  {
  }

  /** A flat-fee mosaic costs exactly the flat fee, whatever the quantity sent. */
  lemma FlatFeeIgnoresQuantity(m: Mosaic, defs: seq<Definition>, pricing: Pricing, k: nat)
    requires FirstMatch(defs, m.mosaicName) == Some(k)
    requires IsFlatFee(defs[k])
    ensures forall q: uint64 :: Contribution(m.(quantity := q), defs, pricing) == FlatFee
  {
  }

  /** A regular-class entry costs at least 1 and at most the capped xem fee less its adjustment. */
  lemma RegularFeeBounds(m: Mosaic, defs: seq<Definition>, pricing: Pricing, k: nat)
    requires FirstMatch(defs, m.mosaicName) == Some(k)
    requires !IsFlatFee(defs[k])
    ensures Contribution(m, defs, pricing) >= 1
    ensures var d := defs[k];
            Contribution(m, defs, pricing) == 1
            || Contribution(m, defs, pricing) <= MaxXemUnits * FeeUnit - pricing.supplyAdjustment(d.divisibility, d.supply)
  {
  }

  // ---- Properties of the sum ----

  lemma {:induction false} SumContributionsConcat(a: seq<Mosaic>, b: seq<Mosaic>, registry: Registry, pricing: Pricing)
    requires Available(a, registry) && Available(b, registry)
    ensures Available(a + b, registry)
    ensures SumContributions(a + b, registry, pricing)
         == SumContributions(a, registry, pricing) + SumContributions(b, registry, pricing)
  {
    if a == [] {
      assert a + b == b;
    } else {
      assert (a + b)[1..] == a[1..] + b;
      SumContributionsConcat(a[1..], b, registry, pricing);
    }
  }

  /** Every namespace of a rearranged list can be looked up when every namespace of the original can. */
  lemma AvailablePermutation(a: seq<Mosaic>, b: seq<Mosaic>, registry: Registry)
    requires multiset(a) == multiset(b)
    requires Available(a, registry)
    ensures Available(b, registry)
  {
    forall i | 0 <= i < |b| ensures b[i].nameSpaceId in registry {
      assert b[i] in multiset(a);
      var j :| 0 <= j < |a| && a[j] == b[i];
    }
  }

  /** The sum is entry j's contribution plus the sum of the other entries. */
  lemma SumWithout(b: seq<Mosaic>, j: nat, registry: Registry, pricing: Pricing)
    requires Available(b, registry)
    requires j < |b|
    ensures Available(b[..j] + b[j + 1..], registry)
    ensures SumContributions(b, registry, pricing)
         == Contribution(b[j], registry[b[j].nameSpaceId], pricing)
            + SumContributions(b[..j] + b[j + 1..], registry, pricing)
  {
    assert b == b[..j] + ([b[j]] + b[j + 1..]);
    SumContributionsConcat(b[..j], [b[j]] + b[j + 1..], registry, pricing);
    assert ([b[j]] + b[j + 1..])[1..] == b[j + 1..];
    SumContributionsConcat(b[..j], b[j + 1..], registry, pricing);
  }

  /** Taking the same element out of two rearrangements of one another leaves rearrangements. */
  lemma RemoveFromBoth(a: seq<Mosaic>, b: seq<Mosaic>, j: nat)
    requires multiset(a) == multiset(b)
    requires a != [] && j < |b| && b[j] == a[0]
    ensures multiset(a[1..]) == multiset(b[..j] + b[j + 1..])
  {
    assert b == b[..j] + [b[j]] + b[j + 1..];
    assert a == [a[0]] + a[1..];
    assert multiset(b) == multiset(b[..j]) + multiset([b[j]]) + multiset(b[j + 1..]);
    assert multiset(a) == multiset([a[0]]) + multiset(a[1..]);
    assert multiset(b[..j] + b[j + 1..]) == multiset(b[..j]) + multiset(b[j + 1..]);
    assert multiset(a[1..]) == multiset(a) - multiset{a[0]};
    assert multiset(b[..j] + b[j + 1..]) == multiset(b) - multiset{b[j]};
  }

  /**
   * The total does not depend on the order the entries are priced in: any
   * rearrangement of the list gives the same sum.
   */
  lemma {:induction false} SumOrderIndependent(a: seq<Mosaic>, b: seq<Mosaic>, registry: Registry, pricing: Pricing)
    requires multiset(a) == multiset(b)
    requires Available(a, registry)
    ensures Available(b, registry)
    ensures SumContributions(a, registry, pricing) == SumContributions(b, registry, pricing)
  {
    AvailablePermutation(a, b, registry);
    if a == [] {
      assert |b| == |multiset(b)| == 0;
    } else {
      assert a[0] in multiset(b);
      var j :| 0 <= j < |b| && b[j] == a[0];
      var rest := b[..j] + b[j + 1..];
      SumWithout(b, j, registry, pricing);
      RemoveFromBoth(a, b, j);
      SumOrderIndependent(a[1..], rest, registry, pricing);
    }
  }

  /** The total is zero exactly when no entry finds a definition with its name. */
  lemma {:induction false} SumZeroIffNothingMatched(ms: seq<Mosaic>, registry: Registry, pricing: Pricing)
    requires Available(ms, registry)
    ensures SumContributions(ms, registry, pricing) == 0
        <==> forall i :: 0 <= i < |ms| ==> FirstMatch(registry[ms[i].nameSpaceId], ms[i].mosaicName).None?
  {
    if ms != [] {
      SumZeroIffNothingMatched(ms[1..], registry, pricing);
      assert forall i :: 1 <= i < |ms| ==> ms[i] == ms[1..][i - 1];
    }
  }

  // ---- Worked scenarios ----

  /** One entry of a flat-fee mosaic with supply 1000 costs exactly the flat fee. */
  lemma FlatFeeScenario(pricing: Pricing)
    ensures var x := Mosaic([97], [120], 100, 22, 10, 1, 1);
            TransferFee([x], map[[97] := [Definition([97], [120], 0, 1000)]], pricing) == Ok(1_000_000)
  {
    var x := Mosaic([97], [120], 100, 22, 10, 1, 1);
    var registry: Registry := map[[97] := [Definition([97], [120], 0, 1000)]];
    assert Available([x], registry);
    assert [x][1..] == [];
    assert FirstMatch(registry[[97]], [120]) == Some(0);
    assert Contribution(x, registry[[97]], pricing) == 1_000_000;
    assert SumContributions([x], registry, pricing) == 1_000_000;
  }

  /** A namespace whose definitions all carry other names contributes nothing and raises no error. */
  lemma SkippedEntryScenario(pricing: Pricing)
    ensures var x := Mosaic([97], [120], 100, 22, 10, 1, 1);
            TransferFee([x], map[[97] := [Definition([97], [121], 0, 1000)]], pricing) == Ok(0)
  {
    var x := Mosaic([97], [120], 100, 22, 10, 1, 1);
    var registry: Registry := map[[97] := [Definition([97], [121], 0, 1000)]];
    assert Available([x], registry);
    assert [x][1..] == [];
    assert registry[[97]][0].mosaicName[0] != 120;
    assert FirstMatch(registry[[97]], [120]) == None;
    assert SumContributions([x], registry, pricing) == 0;
  }
}
