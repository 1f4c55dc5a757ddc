/**
 A slot and a piece of work as the objects the service loop updates in place: running
 the work against the adopter, and putting it back into its slot.
 */
module StreamWork {
  import opened Prelude
  import opened StreamSession

  class SlotCell {
    const id: Identity
    var header: bool
    var receiver: bool
    var remaining: nat
    var fragment: Bytes
    var parked: bool

    constructor (i: Identity, length: nat)
      ensures Value() == Slot(i, true, false, length, [], false)
    {
      id, header, receiver, remaining, fragment, parked := i, true, false, length, [], false;
    }

    function Value(): Slot
      reads this
    {
      Slot(id, header, receiver, remaining, fragment, parked)
    }

    method CreditReady()
      modifies this
      ensures Value() == old(Value()).(parked := false)
    {
      parked := false;
    }

    /** Take the offered bytes out of the slot, or refuse when they exceed what is owed. */
    method Extract(context: bool, input: Bytes) returns (work: WorkCell?)
      modifies this
      ensures var bytes := if !context || old(header) then [] else if old(fragment) != [] then old(fragment) else input;
        if |bytes| > old(remaining) then work == null
        else
          && work != null && work.Value() == Work(id, context, old(header), old(receiver), bytes,
            old(remaining) - |bytes|, false)
          && Value() == old(Value()).(header := false, receiver := false,
                                      fragment := if context && !old(header) then [] else old(fragment))
    {
      var h := header;
      header := false;
      var bytes := [];
      if context && !h {
        if fragment != [] {
          bytes := fragment;
          fragment := [];
        } else {
          bytes := input;
        }
      }
      if |bytes| > remaining { return null; }
      var r := receiver;
      receiver := false;
      work := new WorkCell(id, context, h, r, bytes, remaining - |bytes|);
    }
  }

  class WorkCell {
    const id: Identity
    const context: bool
    var header: bool
    var receiver: bool
    var bytes: Bytes
    const remaining: nat
    var pending: bool

    constructor (i: Identity, c: bool, h: bool, r: bool, b: Bytes, left: nat)
      ensures Value() == Work(i, c, h, r, b, left, false)
    {
      id, context, header, receiver, bytes, remaining, pending := i, c, h, r, b, left, false;
    }

    function Value(): Work
      reads this
    {
      Work(id, context, header, receiver, bytes, remaining, pending)
    }

    /** One call of the adopter: begin with a header, otherwise offer the fragment. */
    method Serve(begins: bool, push: Push) returns (answered: bool, taken: Bytes, finished: bool)
      modifies this
      ensures var ran := RunWork(old(Value()), begins, push);
        Value() == ran.work && answered == ran.answered && taken == ran.taken && finished == ran.finished
    {
      answered, taken, finished := false, [], false;
      pending := false;
      if context {
        if header {
          header := false;
          if begins { receiver := true; } else { answered := true; }
        } else if receiver {
          receiver := false;
          match push {
            case Rejected => answered := true;
            case Postponed =>
              pending := true;
              receiver := true;
            case Consumed =>
              taken := bytes;
              if remaining == 0 {
                answered, finished := true, true;
              } else {
                receiver := true;
              }
          }
        }
      }
    }
  }

  /** Put work back; a refusal changes neither the slot nor the work. */
  method RetainWork(slot: SlotCell, work: WorkCell) returns (ok: bool)
    modifies slot, work
    ensures ok <==> Rejoins(old(slot.Value()), old(work.Value()))
    ensures !ok ==> slot.Value() == old(slot.Value()) && work.Value() == old(work.Value())
    ensures ok ==> Retain(old(slot.Value()), old(work.Value())) == Some((slot.Value(), work.Value()))
  {
    if slot.id != work.id || slot.receiver || slot.fragment != []
       || |work.bytes| > slot.remaining || slot.remaining - |work.bytes| != work.remaining
       || |work.bytes| > MAX_FRAGMENT || (work.pending && work.bytes == [])
    {
      return false;
    }
    if !work.receiver { return false; }
    work.receiver := false;
    slot.receiver := true;
    slot.parked := work.pending;
    if work.pending {
      slot.fragment := work.bytes;
      work.bytes := [];
    } else {
      slot.remaining := work.remaining;
    }
    return true;
  }
}
