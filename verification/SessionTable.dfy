/**
 The session table as the object the request handlers update under its lock, with the
 envelope codec and the cipher in place. The cipher is a pair of functions of key
 generation, counter, associated data and text.
 */
module SessionTable {
  import opened Prelude
  import opened SessionRelay
  import Envelope
  import EnvelopeLoops

  type OpenCipher = (nat, nat, Bytes, Bytes) -> Option<Bytes>
  type SealCipher = (nat, nat, Bytes, Bytes) -> Option<Bytes>

  class Sessions {
    var sessions: map<Sid, Entry>
    var lastSweep: nat
    var gens: nat

    constructor ()
      ensures Value() == Table(map[], 0) && gens == 0
    {
      sessions, lastSweep, gens := map[], 0, 0;
    }

    function Value(): Table
      reads this
    {
      Table(sessions, lastSweep)
    }

    method SweepExpired(now: nat)
      modifies this
      ensures Value() == Sweep(old(Value()), now) && gens == old(gens)
    {
      if now < (lastSweep + SWEEP_EVERY) % U64 { return; }
      lastSweep := now;
      sessions := map sid | sid in sessions && sessions[sid].expiresAt > now :: sessions[sid];
    }

    method BootstrapSession(sid: Sid, now: nat) returns (expiresAt: nat)
      modifies this
      ensures Value() == Bootstrap(Sweep(old(Value()), now), sid, old(gens), now) && gens == old(gens) + 1
      ensures sid in sessions && expiresAt == sessions[sid].expiresAt
    {
      SweepExpired(now);
      expiresAt := Saturating(now, TTL);
      sessions := sessions[sid := Entry(gens, -1, 0, expiresAt)];
      gens := gens + 1;
    }

    /** Nothing comes back when the envelope's announced length stopped the decoder. */
    method OpenRequest(sid: Sid, ad: Bytes, sealed: Bytes, now: nat, open: OpenCipher)
      returns (r: Option<Reply>, plain: Bytes)
      modifies this
      ensures gens == old(gens)
      ensures var t := Sweep(old(Value()), now);
        match Envelope.Decode(sealed)
        case Aborted => r == None && Value() == t
        case Refused => r == Some(BadEnvelope) && Value() == t
        case Ok((ctr, ct)) =>
          var authentic := sid in t.sessions && open(t.sessions[sid].gen, ctr, ad, ct).Some?;
          var out := Open(t, sid, Some(ctr), authentic, now);
          r == Some(out.1) && Value() == out.0
      ensures r.Some? && r.value.Opened? ==>
        && Envelope.Decode(sealed).Ok?
        && open(r.value.gen, r.value.ctr, ad, Envelope.Decode(sealed).value.1) == Some(plain)
    {
      plain := [];
      SweepExpired(now);
      var d := EnvelopeLoops.DecodeEnvelope(sealed);
      if d.Aborted? { return None, []; }
      if d.Refused? { return Some(BadEnvelope), []; }
      var (ctr, ct) := d.value;
      if sid !in sessions { return Some(UnknownSession), []; }
      var e := sessions[sid];
      if e.expiresAt <= now {
        sessions := sessions - {sid};
        return Some(UnknownSession), [];
      }
      if Signed(ctr) <= e.lastSeen { return Some(Replay), []; }
      var pt := open(e.gen, ctr, ad, ct);
      if pt == None { return Some(Crypto), []; }
      sessions := sessions[sid := e.(lastSeen := Signed(ctr), expiresAt := Saturating(now, TTL))];
      return Some(Opened(e.gen, ctr)), pt.value;
    }

    method SealResponse(sid: Sid, ad: Bytes, plain: Bytes, now: nat, seal: SealCipher) returns (r: Reply, body: Bytes)
      modifies this
      ensures gens == old(gens)
      ensures var seals :=
          sid in old(sessions) && seal(old(sessions)[sid].gen, old(sessions)[sid].s2cNext, ad, plain).Some?;
        var out := Seal(old(Value()), sid, seals, now);
        r == out.1 && Value() == out.0
      ensures r.Sealed? ==>
        && seal(r.gen, r.ctr, ad, plain).Some?
        && body == Envelope.Encode(r.ctr, seal(r.gen, r.ctr, ad, plain).value)
    {
      body := [];
      if sid !in sessions { return UnknownSession, []; }
      var e := sessions[sid];
      if e.expiresAt <= now {
        sessions := sessions - {sid};
        return UnknownSession, [];
      }
      var ctr := e.s2cNext;
      if ctr + 1 >= U64 { return Internal, []; }
      sessions := sessions[sid := e.(s2cNext := ctr + 1)];
      var ct := seal(e.gen, ctr, ad, plain);
      if ct == None { return Crypto, []; }
      body := EnvelopeLoops.EncodeEnvelope(ctr, ct.value);
      return Sealed(e.gen, ctr), body;
    }

    method IsKnownSession(sid: Sid, now: nat) returns (yes: bool)
      ensures yes <==> Known(Value(), sid, now)
    {
      return sid in sessions && sessions[sid].expiresAt > now;
    }
  }

  /** A sealed response opens at the peer to what was sealed, when the cipher opens what it sealed. */
  lemma SealedResponseOpens(gen: nat, ctr: nat, ad: Bytes, plain: Bytes, seal: SealCipher, open: OpenCipher)
    requires ctr < U64 && seal(gen, ctr, ad, plain).Some?
    requires open(gen, ctr, ad, seal(gen, ctr, ad, plain).value) == Some(plain)
    requires |Envelope.Encode(ctr, seal(gen, ctr, ad, plain).value)| < U64 / 2
    ensures var d := Envelope.Decode(Envelope.Encode(ctr, seal(gen, ctr, ad, plain).value));
      d.Ok? && d.value.0 == ctr && open(gen, d.value.0, ad, d.value.1) == Some(plain)
  {
    var body := Envelope.Encode(ctr, seal(gen, ctr, ad, plain).value);
    assert body + [] == body;
    Envelope.DecodeOfEncode(ctr, seal(gen, ctr, ad, plain).value, []);
  }

  /** A client counter is accepted once: sending the same sealed body again is refused as a replay. */
  lemma SecondSendRefused(t: Table, sid: Sid, ctr: nat, authentic: bool, now: nat, later: nat)
    requires Open(t, sid, Some(ctr), true, now).1.Opened?
    ensures var u := Open(t, sid, Some(ctr), true, now).0;
      Open(u, sid, Some(ctr), authentic, later).1 == if Saturating(now, TTL) <= later then UnknownSession else Replay
  {
  }
}
