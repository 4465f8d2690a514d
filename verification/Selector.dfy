/** internal/downloader/selector.go: which of the candidate pieces to fetch next. */
module Selectors {
  import opened Bytes

  datatype Selector = RarestFirst | Sequential

  /** Among the candidates, one the strategy allows; none exactly if there are no candidates. */
  ghost predicate Allowed(s: Selector, candidates: seq<nat>, availability: seq<int>, r: Option<nat>) {
    match r
    case None => candidates == []
    case Some(c) =>
      && c in candidates
      && forall d :: d in candidates ==>
           match s
           case RarestFirst => c < |availability| && d < |availability| ==> availability[c] <= availability[d]
           case Sequential => c <= d
  }

  method Select(s: Selector, candidates: seq<nat>, availability: seq<int>) returns (r: Option<nat>)
    requires forall k :: 0 <= k < |candidates| ==> candidates[k] < |availability|
    ensures Allowed(s, candidates, availability, r)
  {
    match s {
      case RarestFirst => r := SelectRarest(candidates, availability);
      case Sequential => r := SelectFirst(candidates);
    }
  }

  method SelectRarest(candidates: seq<nat>, availability: seq<int>) returns (r: Option<nat>)
    requires forall k :: 0 <= k < |candidates| ==> candidates[k] < |availability|
    ensures Allowed(RarestFirst, candidates, availability, r)
  {
    if |candidates| == 0 {
      return None;
    }
    var minAvail := availability[candidates[0]];
    var rarest := [candidates[0]];
    for i := 1 to |candidates|
      invariant rarest != []
      invariant forall k :: 0 <= k < |rarest| ==>
                  rarest[k] in candidates && rarest[k] < |availability| && availability[rarest[k]] == minAvail
      invariant forall j :: 0 <= j < i ==> minAvail <= availability[candidates[j]]
    {
      var c := candidates[i];
      var a := availability[c];
      if a < minAvail {
        minAvail := a;
        rarest := [c];
      } else if a == minAvail {
        rarest := rarest + [c];
      }
    }
    // Ties are broken at random.
    var k :| 0 <= k < |rarest|;
    r := Some(rarest[k]);
  }

  method SelectFirst(candidates: seq<nat>) returns (r: Option<nat>)
    ensures Allowed(Sequential, candidates, [], r)
  {
    if |candidates| == 0 {
      return None;
    }
    var min := candidates[0];
    for i := 1 to |candidates|
      invariant min in candidates && forall j :: 0 <= j < i ==> min <= candidates[j]
    {
      if candidates[i] < min {
        min := candidates[i];
      }
    }
    r := Some(min);
  }
}
