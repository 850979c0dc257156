/**
 The reveal-on-scroll callback of `initScrollAnimations`. The observed
 elements are numbered in the order they were registered, and the
 `animate-in` marker of each is a flag. The viewport geometry that decides
 whether an entry intersects is the platform's; here it is part of the entry.
 */
module ScrollReveal {

  /** One intersection entry: the observed element it reports on and
      whether that element is intersecting. */
  datatype Entry = Entry(target: nat, isIntersecting: bool)

  /** Every entry reports on an observed element. */
  predicate TargetsObserved(revealed: seq<bool>, entries: seq<Entry>) {
    forall k :: 0 <= k < |entries| ==> entries[k].target < |revealed|
  }

  /** Some entry of the batch reports element `e` as intersecting. */
  predicate IntersectsIn(entries: seq<Entry>, e: nat) {
    exists k :: 0 <= k < |entries| && entries[k].target == e && entries[k].isIntersecting
  }

  /** The callback over one batch, entry by entry: an intersecting entry adds
      the marker to its element, any other entry does nothing. An element is
      revealed afterwards exactly when it was before or some entry of the
      batch reports it intersecting. */
  function Observe(revealed: seq<bool>, entries: seq<Entry>): (r: seq<bool>)
    requires TargetsObserved(revealed, entries)
    ensures |r| == |revealed|
    ensures forall e :: 0 <= e < |r| ==> (r[e] <==> revealed[e] || IntersectsIn(entries, e))
    decreases |entries|
  {
    if entries == [] then revealed
    else
      var entry := entries[0];
      var next := if entry.isIntersecting then revealed[entry.target := true] else revealed;
      var r := Observe(next, entries[1..]);
      assert forall e :: IntersectsIn(entries, e) <==>
        (entry.target == e && entry.isIntersecting) || IntersectsIn(entries[1..], e) by {
        forall e ensures IntersectsIn(entries, e) ==>
          (entry.target == e && entry.isIntersecting) || IntersectsIn(entries[1..], e)
        {
          if IntersectsIn(entries, e) {
            var k :| 0 <= k < |entries| && entries[k].target == e && entries[k].isIntersecting;
            if k > 0 {
              assert entries[1..][k - 1] == entries[k];
            }
          }
        }
        forall e | IntersectsIn(entries[1..], e) ensures IntersectsIn(entries, e) {
          var k :| 0 <= k < |entries[1..]| && entries[1..][k].target == e && entries[1..][k].isIntersecting;
          assert entries[k + 1] == entries[1..][k];
        }
      }
      r
  }

  /** A batch with no intersecting entry changes nothing: leaving the
      viewport never removes the marker. */
  lemma LeavingChangesNothing(revealed: seq<bool>, entries: seq<Entry>)
    requires TargetsObserved(revealed, entries)
    requires forall k :: 0 <= k < |entries| ==> !entries[k].isIntersecting
    ensures Observe(revealed, entries) == revealed
  {
  }

  /** Nothing revealed is ever hidden again. */
  lemma RevealIsMonotone(revealed: seq<bool>, entries: seq<Entry>)
    requires TargetsObserved(revealed, entries)
    ensures forall e :: 0 <= e < |revealed| && revealed[e] ==> Observe(revealed, entries)[e]
  {
  }

  /** Two batches in a row act as the one batch made of both. */
  lemma BatchesCompose(revealed: seq<bool>, first: seq<Entry>, second: seq<Entry>)
    requires TargetsObserved(revealed, first) && TargetsObserved(revealed, second)
    ensures TargetsObserved(revealed, first + second)
    ensures Observe(Observe(revealed, first), second) == Observe(revealed, first + second)
  {
    var both := first + second;
    assert forall k :: 0 <= k < |both| ==> both[k] == if k < |first| then first[k] else second[k - |first|];
    var a := Observe(Observe(revealed, first), second);
    var b := Observe(revealed, both);
    forall e | 0 <= e < |revealed| ensures a[e] == b[e] {
      if IntersectsIn(both, e) {
        var k :| 0 <= k < |both| && both[k].target == e && both[k].isIntersecting;
        if k < |first| {
          assert first[k] == both[k];
        } else {
          assert second[k - |first|] == both[k];
        }
      }
      if IntersectsIn(first, e) {
        var k :| 0 <= k < |first| && first[k].target == e && first[k].isIntersecting;
        assert both[k] == first[k];
      }
      if IntersectsIn(second, e) {
        var k :| 0 <= k < |second| && second[k].target == e && second[k].isIntersecting;
        assert both[k + |first|] == second[k];
      }
    }
  }

  /** The order in which two batches arrive does not matter. */
  lemma BatchOrderIrrelevant(revealed: seq<bool>, first: seq<Entry>, second: seq<Entry>)
    requires TargetsObserved(revealed, first) && TargetsObserved(revealed, second)
    ensures Observe(Observe(revealed, first), second) == Observe(Observe(revealed, second), first)
  {
  }
}
