/** Which semiprime of a challenge belongs to a location (src/lib.rs
    `select_semiprime_for_location`): the position of the location in the sorted list of all
    locations, taken modulo the number of semiprimes. */
module Selection {
  import opened Arith
  import opened Errors
  import opened Bytes
  import opened Ordering

  /** The index of the semiprime for `location` among `count` semiprimes: LocationNotFound when the
      location is not listed, NoSemiprimes when there are none (the source divides by zero there
      and panics), otherwise the sorted position modulo count. */
  function SemiprimeSlot(locations: seq<string>, count: nat, location: string): (r: Result<nat>)
    ensures r == Err(LocationNotFound) <==> location !in locations
    ensures r == Err(NoSemiprimes) <==> location in locations && count == 0
    ensures r.Ok? ==> r.value < count
    ensures r.Ok? ==> exists i :: 0 <= i < |locations| && Sort(locations)[i] == location
                                  && r.value == i % count
  {
    var sorted := Sort(locations);
    assert location in locations <==> location in sorted by {
      assert location in multiset(locations) <==> location in multiset(sorted);
    }
    match Position(sorted, location)
    case None => Err(LocationNotFound)
    case Some(i) => if count == 0 then Err(NoSemiprimes) else Ok(i % count)
  }

  /** `select_semiprime_for_location`: the slot's semiprime decoded from hex, InvalidHex when that
      string is not hex, and the slot's errors otherwise. */
  function SelectSemiprime(locations: seq<string>, semiprimes: seq<string>, location: string): (r: Result<nat>)
    ensures r == Err(LocationNotFound) <==> location !in locations
    ensures r == Err(NoSemiprimes) <==> location in locations && semiprimes == []
    ensures r.Err? ==> r.error in {LocationNotFound, NoSemiprimes, InvalidHex}
    ensures r.Ok? ==> exists i :: 0 <= i < |semiprimes| && DecodeSemiprime(semiprimes[i]) == Some(r.value)
    ensures location in locations && semiprimes != [] ==>
              SemiprimeSlot(locations, |semiprimes|, location).Ok?
              && var s := semiprimes[SemiprimeSlot(locations, |semiprimes|, location).value];
                 (r == Err(InvalidHex) <==> !IsHexString(s))
                 && (r.Ok? <==> IsHexString(s))
                 && (r.Ok? ==> DecodeSemiprime(s) == Some(r.value))
  {
    match SemiprimeSlot(locations, |semiprimes|, location)
    case Err(e) => Err(e)
    case Ok(i) =>
      match DecodeSemiprime(semiprimes[i])
      case None => Err(InvalidHex)
      case Some(n) => Ok(n)
  }

  /** Reordering the list of locations does not change which semiprime a location gets: the
      selection sorts first. */
  lemma {:induction false} SelectionIgnoresListOrder(a: seq<string>, b: seq<string>, semiprimes: seq<string>, location: string)
    requires multiset(a) == multiset(b)
    ensures SelectSemiprime(a, semiprimes, location) == SelectSemiprime(b, semiprimes, location)
  {
    SortPermutationInvariant(a, b);
  }

  /** The hex strings of a list of semiprimes, as a challenge carries them. */
  function EncodeAll(ns: seq<nat>): (s: seq<string>)
    ensures |s| == |ns|
    ensures forall i :: 0 <= i < |ns| ==> s[i] == EncodeSemiprime(ns[i])
  {
    if ns == [] then [] else [EncodeSemiprime(ns[0])] + EncodeAll(ns[1..])
  }

  /** On a challenge that carries the hex of ns, a listed location gets back exactly the number
      behind its slot. */
  lemma {:induction false} SelectionRecoversEncoded(locations: seq<string>, ns: seq<nat>, location: string)
    requires location in locations && ns != []
    ensures SemiprimeSlot(locations, |ns|, location).Ok?
    ensures SelectSemiprime(locations, EncodeAll(ns), location)
         == Ok(ns[SemiprimeSlot(locations, |ns|, location).value])
  {
    var i := SemiprimeSlot(locations, |ns|, location).value;
    SemiprimeRoundTrip(ns[i]);
  }

  /** A listed location's slot is its sorted position modulo the count. */
  lemma {:induction false} SlotIsPosition(locations: seq<string>, count: nat, location: string)
    requires location in locations && count > 0
    ensures Position(Sort(locations), location).Some?
    ensures SemiprimeSlot(locations, count, location)
         == Ok(Position(Sort(locations), location).value % count)
  {
    assert location in multiset(Sort(locations));
  }

  /** With one semiprime per location, as a challenge is built, two different locations get two
      different slots. */
  lemma {:induction false} DistinctLocationsDistinctSlots(locations: seq<string>, a: string, b: string)
    requires a in locations && b in locations && a != b
    ensures SemiprimeSlot(locations, |locations|, a).Ok? && SemiprimeSlot(locations, |locations|, b).Ok?
    ensures SemiprimeSlot(locations, |locations|, a).value != SemiprimeSlot(locations, |locations|, b).value
  {
    var n := |locations|;
    SlotIsPosition(locations, n, a);
    SlotIsPosition(locations, n, b);
    var sorted := Sort(locations);
    var i, j := Position(sorted, a).value, Position(sorted, b).value;
    DivModUnique(i, n, 0, i);
    DivModUnique(j, n, 0, j);
  }
}
