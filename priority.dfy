/** The priority ranking both viewers sort by: `{'critical': 0, 'high': 1, 'medium': 2, 'low': 3}`. */
module Priority {

  /** The known priorities, most urgent first. */
  const Ranked: seq<string> := ["critical", "high", "medium", "low"]

  /** `priority_order.get(p, 4)`: a known priority ranks by its place in `Ranked`, any other value last. */
  function Rank(p: string): (r: nat)
    ensures r <= |Ranked|
    ensures forall i :: 0 <= i < |Ranked| ==> (p == Ranked[i] <==> r == i)
    ensures r == |Ranked| <==> p !in Ranked
  {
    if p == "critical" then 0
    else if p == "high" then 1
    else if p == "medium" then 2
    else if p == "low" then 3
    else 4
  }
}
