/** The event queue of the VirtIO-Input driver: a split virtqueue shared with a device.

    Indices are 16-bit and wrap; ring slots are indices modulo the queue size. The state
    also records who holds each descriptor, every event the device has sent and every event
    the driver has handed to its accumulator, so the absolute positions behind the wrapped
    indices are lengths of those records. */
module VirtioRing {
  import Bits

  const QUEUE_SIZE: nat := 16
  const WRAP: nat := 0x1_0000

  datatype RawEvent = RawEvent(eventType: nat, code: nat, value: nat)

  /** Who holds a descriptor; positions are absolute. */
  datatype Owner = Available(position: nat) | InDevice | UsedUnread(position: nat) | InDriver

  datatype Phase = Idle | Fed | SlotWritten

  datatype Ring = Ring(
    avail: seq<nat>,        // driver area
    availIdx: nat,
    used: seq<nat>,         // device area
    usedIdx: nat,
    buffers: seq<RawEvent>,
    deviceAvailIdx: nat,    // device's own: next available slot to take
    inDevice: set<nat>,
    lastUsedIdx: nat,       // driver's own
    eventAvailIdx: nat,
    phase: Phase,           // where the driver stands within one turn of its loop
    hand: nat,              // the descriptor of that turn
    owner: seq<Owner>,
    sent: seq<RawEvent>,
    fed: seq<RawEvent>)

  // ------------------------------------------------------------ steps

  function Published(): Ring
  {
    Ring(seq(QUEUE_SIZE, i => i), QUEUE_SIZE, seq(QUEUE_SIZE, _ => 0), 0,
         seq(QUEUE_SIZE, _ => RawEvent(0, 0, 0)), 0, {}, 0, QUEUE_SIZE, Idle, 0,
         seq(QUEUE_SIZE, i requires i >= 0 => Available(i)), [], [])
  }

  predicate Shaped(r: Ring)
  {
    |r.avail| == QUEUE_SIZE && |r.used| == QUEUE_SIZE && |r.buffers| == QUEUE_SIZE && |r.owner| == QUEUE_SIZE
  }

  /** The device takes the next available descriptor, if there is one. */
  function Take(r: Ring): Ring
    requires Shaped(r)
  {
    var d := r.avail[r.deviceAvailIdx % QUEUE_SIZE];
    if r.deviceAvailIdx == r.availIdx || d >= QUEUE_SIZE then r
    else r.(deviceAvailIdx := (r.deviceAvailIdx + 1) % WRAP,
            inDevice := r.inDevice + {d},
            owner := r.owner[d := InDevice])
  }

  /** The device fills the buffer of a descriptor it holds and returns it as used. */
  function Complete(r: Ring, d: nat, e: RawEvent): Ring
    requires Shaped(r)
  {
    if d !in r.inDevice || d >= QUEUE_SIZE then r
    else r.(buffers := r.buffers[d := e],
            used := r.used[r.usedIdx % QUEUE_SIZE := d],
            usedIdx := (r.usedIdx + 1) % WRAP,
            inDevice := r.inDevice - {d},
            owner := r.owner[d := UsedUnread(|r.sent|)],
            sent := r.sent + [e])
  }

  /** The driver reads the next used descriptor and feeds its event to the accumulator. */
  function Feed(r: Ring): Ring
    requires Shaped(r)
  {
    var d := r.used[r.lastUsedIdx % QUEUE_SIZE] % QUEUE_SIZE;
    r.(phase := Fed, hand := d, owner := r.owner[d := InDriver], fed := r.fed + [r.buffers[d]])
  }

  /** The driver writes the descriptor into the next available slot. */
  function WriteSlot(r: Ring): Ring
    requires Shaped(r)
  {
    r.(phase := SlotWritten, avail := r.avail[r.eventAvailIdx % QUEUE_SIZE := r.hand])
  }

  /** The driver publishes the slot and moves on. */
  function Publish(r: Ring): Ring
    requires Shaped(r) && r.hand < QUEUE_SIZE
  {
    var next := (r.eventAvailIdx + 1) % WRAP;
    r.(phase := Idle, eventAvailIdx := next, availIdx := next,
       lastUsedIdx := (r.lastUsedIdx + 1) % WRAP,
       owner := r.owner[r.hand := Available(|r.fed| + QUEUE_SIZE - 1)])
  }

  // ------------------------------------------------------------ ownership

  /** Absolute positions: events consumed, descriptors available, taken. */
  function Read(r: Ring): nat { |r.fed| }
  function Sent(r: Ring): nat { |r.sent| }
  function Taken(r: Ring): nat { |r.sent| + |r.inDevice| }
  function Offered(r: Ring): int { |r.fed| + QUEUE_SIZE - (if r.phase == Idle then 0 else 1) }

  ghost predicate Counters(r: Ring)
  {
    && Read(r) <= Sent(r) && Taken(r) <= Offered(r)
    && r.usedIdx == Sent(r) % WRAP
    && r.deviceAvailIdx == Taken(r) % WRAP
    && r.availIdx == r.eventAvailIdx == Offered(r) % WRAP
    && r.lastUsedIdx == (Read(r) - if r.phase == Idle then 0 else 1) % WRAP
    && (r.phase != Idle ==> Read(r) > 0)
  }

  /** The owner of a descriptor agrees with the one place that holds it. */
  predicate OwnerOk(r: Ring, d: nat)
    requires Shaped(r) && d < QUEUE_SIZE
  {
    match r.owner[d]
    case Available(k) => Taken(r) <= k < Offered(r) && r.avail[k % QUEUE_SIZE] == d
    case InDevice => d in r.inDevice
    case UsedUnread(k) => Read(r) <= k < Sent(r) && r.used[k % QUEUE_SIZE] == d
    case InDriver => r.phase != Idle && d == r.hand
  }

  /** Every place names a descriptor that says it is there, so each descriptor is in exactly
      one of the available slots, the device, the unread used slots and the driver's hand. */
  ghost predicate Owned(r: Ring)
    requires Shaped(r)
  {
    && (forall d: nat | d < QUEUE_SIZE :: OwnerOk(r, d))
    && (forall k: nat | Taken(r) <= k < Offered(r) :: AvailableAt(r, k))
    && (forall k: nat | Read(r) <= k < Sent(r) :: UsedAt(r, k))
    && (forall d | d in r.inDevice :: d < QUEUE_SIZE && r.owner[d] == InDevice)
    && (r.phase != Idle ==> r.hand < QUEUE_SIZE && r.owner[r.hand] == InDriver)
    && (r.phase == SlotWritten ==> r.avail[r.eventAvailIdx % QUEUE_SIZE] == r.hand)
  }

  predicate AvailableAt(r: Ring, k: nat)
    requires Shaped(r)
  {
    var d := r.avail[k % QUEUE_SIZE];
    d < QUEUE_SIZE && r.owner[d] == Available(k)
  }

  /** An unread used slot names a descriptor whose buffer still holds the event sent there. */
  predicate UsedAt(r: Ring, k: nat)
    requires Shaped(r) && k < |r.sent|
  {
    var d := r.used[k % QUEUE_SIZE];
    d < QUEUE_SIZE && r.owner[d] == UsedUnread(k) && r.buffers[d] == r.sent[k]
  }

  ghost predicate RingInv(r: Ring)
  {
    && Shaped(r) && Counters(r) && Owned(r)
    && r.fed == r.sent[..|r.fed|]
  }

  lemma SlotOfWrapped(k: nat)
    ensures k % WRAP % QUEUE_SIZE == k % QUEUE_SIZE
    ensures (k % WRAP + 1) % WRAP == (k + 1) % WRAP
  {
    var q, r := k / WRAP, k % WRAP;
    assert k == WRAP * q + r;
    Bits.DivUnique(k, QUEUE_SIZE, 0x1000 * q + r / QUEUE_SIZE, r % QUEUE_SIZE);
    if r + 1 < WRAP {
      Bits.DivUnique(k + 1, WRAP, q, r + 1);
    } else {
      Bits.DivUnique(k + 1, WRAP, q + 1, 0);
    }
  }

  /** Positions less than a queue apart have different slots, and the same wrapped index only
      if they are the same. */
  lemma NearPositions(j: nat, k: nat)
    requires j < k <= j + QUEUE_SIZE
    ensures j % WRAP != k % WRAP
    ensures k < j + QUEUE_SIZE ==> j % QUEUE_SIZE != k % QUEUE_SIZE
  {
  }

  lemma PublishedInv()
    ensures RingInv(Published())
  {
  }

  /** The device finds a descriptor to take exactly when one is on offer. */
  lemma TakeFinds(r: Ring)
    requires RingInv(r)
    ensures r.deviceAvailIdx == r.availIdx <==> Taken(r) == Offered(r)
    ensures r.avail[r.deviceAvailIdx % QUEUE_SIZE] == r.avail[Taken(r) % QUEUE_SIZE]
    ensures Taken(r) < Offered(r) ==> AvailableAt(r, Taken(r))
  {
    SlotOfWrapped(Taken(r));
    if Taken(r) < Offered(r) {
      NearPositions(Taken(r), Offered(r));
    }
  }

  lemma TakeCounts(r: Ring)
    requires RingInv(r) && Taken(r) < Offered(r)
    ensures Counters(Take(r)) && Taken(Take(r)) == Taken(r) + 1
  {
    TakeFinds(r);
    SlotOfWrapped(Taken(r));
    var d := r.avail[Taken(r) % QUEUE_SIZE];
    assert d !in r.inDevice;
  }

  lemma TakeInv(r: Ring)
    requires RingInv(r)
    ensures RingInv(Take(r))
  {
    TakeFinds(r);
    if Taken(r) < Offered(r) {
      TakeCounts(r);
      TakeOwned(r, Take(r), r.avail[Taken(r) % QUEUE_SIZE]);
    }
  }

  lemma TakeOwned(r: Ring, r': Ring, d: nat)
    requires RingInv(r) && Taken(r) < Offered(r) && d == r.avail[Taken(r) % QUEUE_SIZE] && d < QUEUE_SIZE
    requires r' == r.(deviceAvailIdx := r'.deviceAvailIdx, inDevice := r.inDevice + {d}, owner := r.owner[d := InDevice])
    requires Taken(r') == Taken(r) + 1
    ensures Owned(r')
  {
    assert AvailableAt(r, Taken(r));
    forall e: nat | e < QUEUE_SIZE
      ensures OwnerOk(r', e)
    {
      assert OwnerOk(r, e);
    }
    forall k: nat | Taken(r') <= k < Offered(r')
      ensures AvailableAt(r', k)
    {
      assert AvailableAt(r, k);
    }
    forall k: nat | Read(r') <= k < Sent(r')
      ensures UsedAt(r', k)
    {
      assert UsedAt(r, k);
    }
  }

  lemma CompleteInv(r: Ring, d: nat, e: RawEvent)
    requires RingInv(r)
    ensures RingInv(Complete(r, d, e))
    ensures d in r.inDevice ==> Complete(r, d, e).sent == r.sent + [e] && d !in Complete(r, d, e).inDevice
    ensures d !in r.inDevice ==> Complete(r, d, e) == r
  {
    if d in r.inDevice {
      var r' := Complete(r, d, e);
      SlotOfWrapped(Sent(r));
      assert |r.inDevice - {d}| == |r.inDevice| - 1;
      CompleteOwned(r, r', d, e);
      assert r'.fed == r'.sent[..|r'.fed|];
    }
  }

  lemma CompleteOwned(r: Ring, r': Ring, d: nat, e: RawEvent)
    requires RingInv(r) && d in r.inDevice && d < QUEUE_SIZE
    requires r' == r.(buffers := r.buffers[d := e], used := r.used[Sent(r) % QUEUE_SIZE := d], usedIdx := r'.usedIdx,
                      inDevice := r.inDevice - {d}, owner := r.owner[d := UsedUnread(Sent(r))], sent := r.sent + [e])
    requires Taken(r') == Taken(r)
    ensures Owned(r')
  {
    forall k: nat | Read(r) <= k < Sent(r)
      ensures k % QUEUE_SIZE != Sent(r) % QUEUE_SIZE
    {
      NearPositions(k, Sent(r));
    }
    forall f: nat | f < QUEUE_SIZE
      ensures OwnerOk(r', f)
    {
      assert OwnerOk(r, f);
    }
    forall k: nat | Taken(r') <= k < Offered(r')
      ensures AvailableAt(r', k)
    {
      assert AvailableAt(r, k);
    }
    forall k: nat | Read(r') <= k < Sent(r')
      ensures UsedAt(r', k)
    {
      assert k < Sent(r) ==> UsedAt(r, k);
    }
  }

  /** The driver feeds the oldest unread event: the accumulator sees the events in the order
      sent, each once. */
  lemma FeedInv(r: Ring)
    requires RingInv(r) && r.phase == Idle && Read(r) < Sent(r)
    ensures RingInv(Feed(r)) && Feed(r).fed == r.sent[..|r.fed| + 1]
  {
    var r' := Feed(r);
    SlotOfWrapped(Read(r));
    assert UsedAt(r, Read(r));
    assert r'.fed == r.sent[..|r.fed| + 1];
    FeedOwned(r, r', r.used[Read(r) % QUEUE_SIZE]);
  }

  lemma FeedOwned(r: Ring, r': Ring, d: nat)
    requires RingInv(r) && r.phase == Idle && Read(r) < Sent(r) && d == r.used[Read(r) % QUEUE_SIZE] && d < QUEUE_SIZE
    requires r' == r.(phase := Fed, hand := d, owner := r.owner[d := InDriver], fed := r'.fed)
    requires |r'.fed| == |r.fed| + 1
    ensures Owned(r')
  {
    assert UsedAt(r, Read(r));
    forall e: nat | e < QUEUE_SIZE
      ensures OwnerOk(r', e)
    {
      assert OwnerOk(r, e);
    }
    forall k: nat | Taken(r') <= k < Offered(r')
      ensures AvailableAt(r', k)
    {
      assert AvailableAt(r, k);
    }
    forall k: nat | Read(r') <= k < Sent(r')
      ensures UsedAt(r', k)
    {
      assert UsedAt(r, k);
    }
  }

  /** Recycling writes a slot that holds no descriptor the device has yet to take. */
  lemma RecycledSlotIsFree(r: Ring, k: nat)
    requires RingInv(r) && r.phase == Fed && Taken(r) <= k < Offered(r)
    ensures r.eventAvailIdx % QUEUE_SIZE != k % QUEUE_SIZE
  {
    SlotOfWrapped(Offered(r));
    NearPositions(k, Offered(r));
  }

  lemma WriteSlotInv(r: Ring)
    requires RingInv(r) && r.phase == Fed
    ensures RingInv(WriteSlot(r))
  {
    var r' := WriteSlot(r);
    forall k: nat | Taken(r') <= k < Offered(r')
      ensures AvailableAt(r', k)
    {
      RecycledSlotIsFree(r, k);
      assert AvailableAt(r, k);
    }
    forall d: nat | d < QUEUE_SIZE
      ensures OwnerOk(r', d)
    {
      assert OwnerOk(r, d);
      if r.owner[d].Available? {
        RecycledSlotIsFree(r, r.owner[d].position);
      }
    }
    forall k: nat | Read(r') <= k < Sent(r')
      ensures UsedAt(r', k)
    {
      assert UsedAt(r, k);
    }
  }

  lemma PublishInv(r: Ring)
    requires RingInv(r) && r.phase == SlotWritten
    ensures RingInv(Publish(r))
  {
    var r' := Publish(r);
    SlotOfWrapped(Offered(r));
    SlotOfWrapped(Read(r) - 1);
    PublishOwned(r, r');
  }

  lemma PublishOwned(r: Ring, r': Ring)
    requires RingInv(r) && r.phase == SlotWritten && r' == Publish(r)
    ensures Owned(r')
  {
    SlotOfWrapped(Offered(r));
    forall e: nat | e < QUEUE_SIZE
      ensures OwnerOk(r', e)
    {
      assert OwnerOk(r, e);
    }
    forall k: nat | Taken(r') <= k < Offered(r')
      ensures AvailableAt(r', k)
    {
      assert k < Offered(r) ==> AvailableAt(r, k);
    }
    forall k: nat | Read(r') <= k < Sent(r')
      ensures UsedAt(r', k)
    {
      assert UsedAt(r, k);
    }
  }

  // ------------------------------------------------------------ the device in between

  datatype DeviceAction = DeviceTakes | DeviceCompletes(descriptor: nat, event: RawEvent)

  function DeviceStep(r: Ring, a: DeviceAction): (r': Ring)
    requires Shaped(r)
    ensures Shaped(r')
  {
    match a
    case DeviceTakes => Take(r)
    case DeviceCompletes(d, e) => Complete(r, d, e)
  }

  /** Everything of the driver's own is as it was, and events were only added. */
  ghost predicate DriverSame(r: Ring, r': Ring)
  {
    && r'.phase == r.phase && r'.hand == r.hand && r'.fed == r.fed
    && r'.lastUsedIdx == r.lastUsedIdx && r'.eventAvailIdx == r.eventAvailIdx
    && r.sent <= r'.sent
  }

  function DeviceRun(r: Ring, actions: seq<DeviceAction>): (r': Ring)
    requires Shaped(r)
    ensures Shaped(r')
    decreases actions
  {
    if actions == [] then r else DeviceRun(DeviceStep(r, actions[0]), actions[1..])
  }

  /** Whatever a conforming device does, in any order and amount, ownership holds. */
  lemma {:induction false} DeviceRunInv(r: Ring, actions: seq<DeviceAction>)
    requires RingInv(r)
    ensures RingInv(DeviceRun(r, actions)) && DriverSame(r, DeviceRun(r, actions))
    decreases actions
  {
    if actions != [] {
      var r1 := DeviceStep(r, actions[0]);
      match actions[0] {
        case DeviceTakes => TakeInv(r);
        case DeviceCompletes(d, e) => CompleteInv(r, d, e);
      }
      DeviceRunInv(r1, actions[1..]);
    }
  }

  // ------------------------------------------------------------ the driver

  class VirtioInput {
    var ring: Ring // the shared queue memory, with the driver's and the device's own indices

    constructor ()
      ensures ring == Published() && RingInv(ring)
    {
      ring := Published();
      PublishedInv();
    }

    /** One turn of the loop, with the device running between its writes. */
    method ConsumeOne(before: seq<DeviceAction>, between: seq<DeviceAction>, after: seq<DeviceAction>)
      requires RingInv(ring) && ring.phase == Idle && Read(ring) < Sent(ring)
      modifies this
      ensures RingInv(ring) && ring.phase == Idle && old(ring).sent <= ring.sent
      ensures ring.fed == old(ring).sent[..|old(ring).fed| + 1]
    {
      DeviceRunInv(ring, before);
      ring := DeviceRun(ring, before);
      FeedInv(ring);
      ring := Feed(ring);
      DeviceRunInv(ring, between);
      ring := DeviceRun(ring, between);
      WriteSlotInv(ring);
      ring := WriteSlot(ring);
      DeviceRunInv(ring, after);
      ring := DeviceRun(ring, after);
      PublishInv(ring);
      ring := Publish(ring);
    }

    /** Drains the events that were sent before the poll began, in order, while the device
        keeps running as `schedule` says. */
    method PollEvents(schedule: nat -> seq<DeviceAction>) returns (processed: nat)
      requires RingInv(ring) && ring.phase == Idle
      modifies this
      ensures RingInv(ring) && ring.phase == Idle
      ensures old(ring).sent <= ring.sent && ring.fed == old(ring).sent
      ensures processed == |old(ring).sent| - |old(ring).fed|
    {
      var usedIdx := ring.usedIdx;
      processed := 0;
      while ring.lastUsedIdx != usedIdx
        invariant RingInv(ring) && ring.phase == Idle
        invariant old(ring).sent <= ring.sent && ring.fed <= old(ring).sent
        invariant processed == |ring.fed| - |old(ring).fed|
        decreases |old(ring).sent| - |ring.fed|
      {
        assert |ring.fed| < |old(ring).sent|;
        ConsumeOne(schedule(3 * processed), schedule(3 * processed + 1), schedule(3 * processed + 2));
        processed := processed + 1;
      }
      if |ring.fed| < |old(ring).sent| {
        NearPositions(|ring.fed|, |old(ring).sent|);
      }
    }
  }
}
