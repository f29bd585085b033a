/**
 * The walk callback protocol shared by both large object spaces: for each
 * object the walker reports its span, then a sentinel call with null
 * bounds and size 0 that closes the object.
 */
module WalkProtocol {

  /** One call of the walk callback. */
  datatype WalkCall =
    | Visit(start: nat, end: nat, size: nat)   // callback(start, end, size)
    | EndOfObject                              // callback(NULL, NULL, 0)

  /** The span of one object as a walk reports it. */
  datatype Span = Span(start: nat, end: nat, size: nat)

  /** The calls a walk makes over `spans`, in order. */
  function WalkCalls(spans: seq<Span>): seq<WalkCall>
  {
    if spans == [] then []
    else
      var s := spans[|spans| - 1];
      WalkCalls(spans[..|spans| - 1]) + [Visit(s.start, s.end, s.size), EndOfObject]
  }

  /** Every object gives exactly two calls: its span, then the sentinel. */
  lemma {:induction false} WalkCallsShape(spans: seq<Span>)
    ensures |WalkCalls(spans)| == 2 * |spans|
    ensures forall i :: 0 <= i < |spans| ==>
      WalkCalls(spans)[2 * i] == Visit(spans[i].start, spans[i].end, spans[i].size) &&
      WalkCalls(spans)[2 * i + 1] == EndOfObject
  {
    if spans != [] {
      var init := spans[..|spans| - 1];
      WalkCallsShape(init);
      forall i | 0 <= i < |spans|
        ensures WalkCalls(spans)[2 * i] == Visit(spans[i].start, spans[i].end, spans[i].size)
        ensures WalkCalls(spans)[2 * i + 1] == EndOfObject
      {
        if i < |init| {
          assert spans[i] == init[i];
        }
      }
    }
  }

  /** Walking a prefix and then one more object appends that object's two calls. */
  lemma WalkCallsSnoc(spans: seq<Span>, s: Span)
    ensures WalkCalls(spans + [s]) == WalkCalls(spans) + [Visit(s.start, s.end, s.size), EndOfObject]
  {
    assert (spans + [s])[..|spans|] == spans;
  }

  /** Walking one more object of `spans` appends that object's two calls. */
  lemma WalkCallsPrefix(spans: seq<Span>, k: nat)
    requires k < |spans|
    ensures WalkCalls(spans[..k + 1]) ==
      WalkCalls(spans[..k]) + [Visit(spans[k].start, spans[k].end, spans[k].size), EndOfObject]
  {
    assert spans[..k + 1] == spans[..k] + [spans[k]];
    WalkCallsSnoc(spans[..k], spans[k]);
  }
}
