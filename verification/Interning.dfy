/** Nodes interned by where they are recorded (`intern` of `crates/lamfold-squash/src/squash.rs`
    and `crates/lamfold-udf/src/udf.rs`). */
module Interning {
  import opened Bytes

  /** What is recorded at a place. */
  type Parse<T> = nat -> Result<T>

  /** Every node is what a fresh parse of its place gives, and ids and places are in bijection. */
  ghost predicate Agrees<T(!new)>(parse: Parse<T>, nodes: seq<T>, ids: map<nat, nat>, places: seq<nat>)
  {
    && |places| == |nodes|
    && (forall id {:trigger nodes[id]} {:trigger places[id]} :: 0 <= id < |nodes| ==>
          places[id] in ids && ids[places[id]] == id && parse(places[id]) == Ok(nodes[id]))
    && (forall place :: place in ids ==> ids[place] < |nodes| && places[ids[place]] == place)
  }

  lemma {:induction false} AgreesGrows<T(!new)>(parse: Parse<T>, nodes: seq<T>, ids: map<nat, nat>, places: seq<nat>, place: nat, x: T)
    requires Agrees(parse, nodes, ids, places) && place !in ids && parse(place) == Ok(x)
    ensures Agrees(parse, nodes + [x], ids[place := |nodes|], places + [place])
  {
  }
}
