/** Sent-but-unacknowledged batches (`AckTracker` in src/transport.rs) and one pass of
    the send loop of src/stream.rs over them. */
module AckTrackers {
  import opened Common

  /** Milliseconds after which an unacknowledged batch counts as lost. */
  const ACK_TIMEOUT: nat := 150

  datatype InFlight = InFlight(sentAt: nat, epoch: nat, cells: seq<nat>)

  /** Grid cells of a lost batch, with the epoch of their grid. */
  datatype LostCells = LostCells(epoch: nat, cells: seq<nat>)

  /** `u32::wrapping_add(1)`. */
  function NextSeq(seqNo: u32): u32 { (seqNo + 1) % U32_LIMIT }

  predicate Expired(b: InFlight, timeout: nat, now: nat) { now - b.sentAt > timeout }

  /** The batches a sweep at `now` takes out, by sequence number. */
  function ExpiredSeqs(inFlight: map<u32, InFlight>, timeout: nat, now: nat): set<u32> {
    set s | s in inFlight && Expired(inFlight[s], timeout, now)
  }

  /** The lost list names exactly the batches of `order`, in that order. */
  ghost predicate Reports(inFlight: map<u32, InFlight>, order: seq<u32>, lost: seq<LostCells>) {
    && |lost| == |order|
    && (forall k :: 0 <= k < |order| ==>
          order[k] in inFlight && lost[k] == LostCells(inFlight[order[k]].epoch, inFlight[order[k]].cells))
  }

  class AckTracker {
    const timeout: nat
    var nextSeq: u32
    var inFlight: map<u32, InFlight>

    constructor (timeout: nat)
      ensures this.timeout == timeout && nextSeq == 0 && inFlight == map[]
    {
      this.timeout, nextSeq, inFlight := timeout, 0, map[];
    }

    /** Records a batch about to be sent. After 2^32 registrations a number is reused,
        and a batch still in flight under it is overwritten. */
    method Register(epoch: nat, cells: seq<nat>, now: nat) returns (seqNo: u32)
      modifies this
      ensures seqNo == nextSeq == NextSeq(old(nextSeq))
      ensures inFlight == old(inFlight)[seqNo := InFlight(now, epoch, cells)]
    {
      nextSeq := NextSeq(nextSeq);
      inFlight := inFlight[nextSeq := InFlight(now, epoch, cells)];
      return nextSeq;
    }

    /** Unknown numbers (a late acknowledgement) are ignored. */
    method Ack(seqNo: u32)
      modifies this`inFlight
      ensures inFlight == old(inFlight) - {seqNo}
    {
      inFlight := inFlight - {seqNo};
    }

    /** Removes and reports every batch older than the timeout, each once. */
    method TakeExpired(now: nat) returns (lost: seq<LostCells>, ghost order: seq<u32>)
      modifies this`inFlight
      ensures inFlight == old(inFlight) - ExpiredSeqs(old(inFlight), timeout, now)
      ensures NoDuplicates(order)
      ensures forall s :: s in order <==> s in ExpiredSeqs(old(inFlight), timeout, now)
      ensures Reports(old(inFlight), order, lost)
      ensures forall s :: s in inFlight ==> s in old(inFlight) && inFlight[s] == old(inFlight)[s]
      ensures forall s :: s in old(inFlight) ==> (s in inFlight <==> now <= old(inFlight)[s].sentAt + timeout)
      ensures forall s :: s in order <==> s in old(inFlight) && old(inFlight)[s].sentAt + timeout < now
    {
      var expired := ExpiredSeqs(inFlight, timeout, now);
      var remaining := expired;
      lost, order := [], [];
      while remaining != {}
        invariant remaining <= expired && NoDuplicates(order)
        invariant forall s :: s in order <==> s in expired - remaining
        invariant inFlight == old(inFlight) - (expired - remaining)
        invariant Reports(old(inFlight), order, lost)
        decreases |remaining|
      {
        var s :| s in remaining;
        assert s in inFlight;
        lost, order := lost + [LostCells(inFlight[s].epoch, inFlight[s].cells)], order + [s];
        inFlight := inFlight - {s};
        remaining := remaining - {s};
        assert inFlight == old(inFlight) - (expired - remaining);
      }
      assert expired - remaining == expired;
    }
  }

  /** The send loop's side of a session: the tracker and the channel of lost cells. */
  class SendLoop {
    const tracker: AckTracker
    var lostTx: seq<LostCells>

    constructor (timeout: nat)
      ensures fresh(tracker) && tracker.timeout == timeout && tracker.inFlight == map[] && lostTx == []
    {
      tracker := new AckTracker(timeout);
      lostTx := [];
    }

    /** One pass: drain the acknowledgements, report what expired, then register the
        frame's cells if there is a frame with tiles. A batch acknowledged in this pass
        is never reported, and the frame of this pass never expires in it. */
    method Pass(acks: seq<u32>, now: nat, frame: Option<(nat, seq<nat>)>) returns (ghost order: seq<u32>)
      modifies this, tracker
      ensures var kept := old(tracker.inFlight) - (set s | s in acks);
              var expired := ExpiredSeqs(kept, tracker.timeout, now);
              && (forall s :: s in order <==> s in expired) && NoDuplicates(order)
              && |lostTx| == |old(lostTx)| + |order| && old(lostTx) <= lostTx
              && Reports(kept, order, lostTx[|old(lostTx)|..])
              && (frame.None? ==> tracker.inFlight == kept - expired && tracker.nextSeq == old(tracker.nextSeq))
              && (frame.Some? ==>
                    && tracker.nextSeq == NextSeq(old(tracker.nextSeq))
                    && tracker.inFlight ==
                         (kept - expired)[tracker.nextSeq := InFlight(now, frame.value.0, frame.value.1)])
      ensures forall s :: s in order <==>
                          && s in old(tracker.inFlight) && s !in acks
                          && old(tracker.inFlight)[s].sentAt + tracker.timeout < now
    {
      for k: nat := 0 to |acks|
        invariant tracker.inFlight == old(tracker.inFlight) - (set s | s in acks[..k])
        invariant tracker.nextSeq == old(tracker.nextSeq) && lostTx == old(lostTx)
      {
        assert acks[..k + 1] == acks[..k] + [acks[k]];
        tracker.Ack(acks[k]);
      }
      assert acks[..|acks|] == acks;
      ghost var kept := tracker.inFlight;
      assert forall s :: s in kept <==> s in old(tracker.inFlight) && s !in acks;
      var lost: seq<LostCells>;
      lost, order := tracker.TakeExpired(now);
      lostTx := lostTx + lost;
      assert lostTx[|old(lostTx)|..] == lost;
      if frame.Some? {
        var _ := tracker.Register(frame.value.0, frame.value.1, now);
      }
    }
  }
}
