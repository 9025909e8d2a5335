/** Positions in a list: what a filter keeps, said without the filter. */
module Places {
  /** `part` consists of the elements of `whole` at `places`, in the order of `whole`, each place taken once. */
  ghost predicate Picks<T(!new)>(part: seq<T>, whole: seq<T>, places: seq<nat>) {
    && |part| == |places|
    && (forall k :: 0 <= k < |places| ==> places[k] < |whole| && part[k] == whole[places[k]])
    && (forall j, k :: 0 <= j < k < |places| ==> places[j] < places[k])
  }

  /** One more element of the whole, taken or not. */
  lemma PicksOneMore<T(!new)>(part: seq<T>, whole: seq<T>, places: seq<nat>, last: T, taken: bool)
      returns (places': seq<nat>)
    requires Picks(part, whole, places)
    ensures Picks(if taken then part + [last] else part, whole + [last], places')
    ensures forall i: nat :: i in places' <==> i in places || (taken && i == |whole|)
  {
    places' := if taken then places + [|whole|] else places;
  }
}
