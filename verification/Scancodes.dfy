/** The fixed ring of scancodes between the keyboard interrupt and its consumer. */
module Scancodes {
  import opened Common

  const CAPACITY: nat := 128

  /** Accepted while one slot stays free: the ring holds at most CAPACITY - 1 codes. */
  function Pushed(codes: seq<nat>, code: nat): seq<nat>
  {
    if |codes| < CAPACITY - 1 then codes + [code] else codes
  }

  /** The codes from `head` to `tail`, around the end of the ring. */
  function Held(ring: seq<nat>, head: nat, tail: nat): seq<nat>
    requires |ring| == CAPACITY && head < CAPACITY && tail < CAPACITY
  {
    if head <= tail then ring[head..tail] else ring[head..] + ring[..tail]
  }

  function Next(i: nat): nat
    requires i < CAPACITY
  {
    if i + 1 == CAPACITY then 0 else i + 1
  }

  lemma HeldPush(ring: seq<nat>, head: nat, tail: nat, code: nat)
    requires |ring| == CAPACITY && head < CAPACITY && tail < CAPACITY
    ensures Next(tail) == head <==> |Held(ring, head, tail)| == CAPACITY - 1
    ensures Next(tail) != head ==> Held(ring[tail := code], head, Next(tail)) == Held(ring, head, tail) + [code]
  {
  }

  lemma HeldPop(ring: seq<nat>, head: nat, tail: nat)
    requires |ring| == CAPACITY && head < CAPACITY && tail < CAPACITY
    ensures head == tail <==> Held(ring, head, tail) == []
    ensures head != tail ==> Held(ring, head, tail) == [ring[head]] + Held(ring, Next(head), tail)
  {
    if head < tail {
      HeldAhead(ring, head, tail);
    } else if head > tail {
      HeldAround(ring, head, tail);
    }
  }

  lemma HeldAhead(ring: seq<nat>, head: nat, tail: nat)
    requires head < tail <= |ring|
    ensures ring[head..tail] == [ring[head]] + ring[head + 1..tail]
  {
  }

  lemma HeldAround(ring: seq<nat>, head: nat, tail: nat)
    requires tail < head < |ring|
    ensures ring[head..] + ring[..tail] == [ring[head]] + (ring[head + 1..] + ring[..tail])
    ensures head + 1 == |ring| ==> ring[head..] + ring[..tail] == [ring[head]] + ring[0..tail]
  {
  }

  class ScancodeQueue {
    const buffer: array<nat>
    var head: nat
    var tail: nat
    var dropped: nat

    ghost predicate Valid()
      reads this
    {
      buffer.Length == CAPACITY && head < CAPACITY && tail < CAPACITY
    }

    ghost function Contents(): seq<nat>
      requires Valid()
      reads this, buffer
    {
      Held(buffer[..], head, tail)
    }

    constructor ()
      ensures Valid() && Contents() == [] && dropped == 0 && fresh(buffer)
    {
      buffer := new nat[CAPACITY](_ => 0);
      head, tail, dropped := 0, 0, 0;
    }

    method Push(code: nat) returns (accepted: bool)
      requires Valid()
      modifies this, buffer
      ensures Valid()
      ensures Contents() == Pushed(old(Contents()), code)
      ensures accepted <==> |old(Contents())| < CAPACITY - 1
      ensures dropped == old(dropped) + if accepted then 0 else 1
    {
      HeldPush(buffer[..], head, tail, code);
      var next := (tail + 1) % CAPACITY;
      if next == head {
        dropped := dropped + 1;
        return false;
      }
      buffer[tail] := code;
      assert buffer[..] == old(buffer[..])[tail := code];
      tail := next;
      accepted := true;
    }

    method Pop() returns (code: Option<nat>)
      requires Valid()
      modifies this
      ensures Valid() && dropped == old(dropped)
      ensures old(Contents()) == [] ==> code == None && Contents() == []
      ensures old(Contents()) != [] ==> code == Some(old(Contents())[0]) && Contents() == old(Contents())[1..]
    {
      HeldPop(buffer[..], head, tail);
      if head == tail {
        return None;
      }
      code := Some(buffer[head]);
      head := (head + 1) % CAPACITY;
    }
  }
}
