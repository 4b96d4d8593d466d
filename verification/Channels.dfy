/** The response channel of a request, as its caller sees it: the caller hangs up after accepting
    `room` items. */
module Channels {

  function Take<T>(s: seq<T>, n: nat): seq<T> { if n < |s| then s[..n] else s }

  function Push<T>(out: seq<T>, item: T, room: nat): seq<T> { if |out| < room then out + [item] else out }

  /** Pushing stops exactly where taking stops. */
  lemma PushIsTake<T>(out: seq<T>, item: T, room: nat)
    requires |out| <= room
    ensures Push(out, item, room) == Take(out + [item], room)
    ensures Take(out + [], room) == out
    ensures |out| == room ==> Take((out + [item]) + [], room) == out
  {
    assert out + [] == out && (out + [item]) + [] == out + [item];
  }

  lemma TakeOfTake<T>(a: seq<T>, b: seq<T>, room: nat)
    ensures Take(Take(a, room) + b, room) == Take(a + b, room)
  {
  }
}
