/** A signer that trusts the device with nothing but speed: keys are pinned by their public keys and epochs, every
    signature is verified before it is returned, and any fault closes the signer for good. */
module GuardedSigner {
  import opened Options
  import opened Words
  import opened KeySlots
  import J = Jws

  /** Independent cryptography on the host: the public key of a private scalar, and verification of the scalars r and s of a
      signature over a digest. */
  datatype Host = Host(derive: int -> Bytes, verify: (Bytes, int, int, Digest) -> bool)

  /** The private key as bytes: a scalar. */
  predicate IsPrivate(key: Bytes) {
    |key| == 32 && 1 <= J.Unsigned(key) < J.ORDER
  }

  /** The public key of a private key. */
  function PublicOf(host: Host, key: Bytes): Bytes {
    host.derive(J.Unsigned(key))
  }

  /** A canonical low-s signature that verifies under this public key. */
  predicate Acceptable(host: Host, public: Bytes, digest: Digest, signature: Bytes) {
    && J.Scalars(signature).Some?
    && var (r, s) := J.Scalars(signature).value;
    host.verify(public, r, s, digest)
  }

  /** The signature is a scalar and a low one, each as 32 big-endian bytes, and these verify in this order. */
  ghost predicate Verifies(host: Host, public: Bytes, digest: Digest, signature: Bytes) {
    exists r: nat, s: nat ::
      && signature == J.BigEndian(r, 32) + J.BigEndian(s, 32)
      && 0 < r < 0xFFFFFFFF00000000FFFFFFFFFFFFFFFFBCE6FAADA7179E84F3B9CAC2FC632551
      && 0 < s <= 0x7FFFFFFF800000007FFFFFFFFFFFFFFFDE737D56D38BCF4279DCE5617E3192A8
      && host.verify(public, r, s, digest)
  }

  lemma AcceptableExactly(host: Host, public: Bytes, digest: Digest, signature: Bytes)
    ensures Acceptable(host, public, digest, signature) <==> Verifies(host, public, digest, signature)
  {
    hide J.Scalars, J.BigEndian;
    forall r: nat, s: nat
      ensures J.Scalars(signature) == Some((r, s)) <==>
                && 0 < r < 0xFFFFFFFF00000000FFFFFFFFFFFFFFFFBCE6FAADA7179E84F3B9CAC2FC632551
                && 0 < s <= 0x7FFFFFFF800000007FFFFFFFFFFFFFFFDE737D56D38BCF4279DCE5617E3192A8
                && signature == J.BigEndian(r, 32) + J.BigEndian(s, 32)
    {
      J.ScalarsExactly(signature, r, s);
    }
    if J.Scalars(signature).Some? {
      ScalarsAreNatural(signature);
    }
  }

  lemma ScalarsAreNatural(signature: Bytes)
    requires J.Scalars(signature).Some?
    ensures J.Scalars(signature).value.0 >= 0 && J.Scalars(signature).value.1 >= 0
  {
  }

  /** A private key is a scalar as 32 big-endian bytes, and its public key is the one of that scalar. */
  lemma PrivateExactly(host: Host, key: Bytes)
    ensures IsPrivate(key) <==> exists k: nat :: IsKeyOf(key, k)
    ensures forall k: nat | IsKeyOf(key, k) :: PublicOf(host, key) == host.derive(k)
  {
    hide J.Unsigned, J.BigEndian, Pow2;
    if IsPrivate(key) {
      J.EveryBytesWritten(key);
      assert IsKeyOf(key, J.Unsigned(key));
    }
    forall k: nat | IsKeyOf(key, k)
      ensures |key| == 32 && J.Unsigned(key) == k
    {
      J.OrderFits();
      J.BigEndianReads(k, 32);
    }
  }

  ghost predicate IsKeyOf(key: Bytes, k: nat) {
    key == J.BigEndian(k, 32) && 0 < k < 0xFFFFFFFF00000000FFFFFFFFFFFFFFFFBCE6FAADA7179E84F3B9CAC2FC632551
  }

  datatype Pin = Pin(epoch: nat, public: Bytes)

  /** A value, an argument or state error, or a fault that has closed the signer. */
  datatype Outcome<+T> = Done(value: T) | Rejected | Fault

  /** The device did every item, and every signature verifies. */
  ghost predicate Trusted(host: Host, e: Execution<Bytes>, public: Bytes, digests: seq<Digest>)
    requires Sensible(e, |digests|)
  {
    e.Executed? && forall i | 0 <= i < |digests| :: e.statuses[i] == KeySlots.Ok && Verifies(host, public, digests[i], e.outputs[i])
  }

  class VerifiedSigner {
    const host: Host
    const native: Context
    var keys: map<nat, Pin>
    var closed: bool
    var running: bool  // the native runtime is open

    /** While the signer lives its runtime is open, and its pins are exactly the loaded slots: same epochs, and public keys
        that the host itself derived from the loaded keys. A closed signer has neither pins nor a runtime. */
    ghost predicate Valid()
      reads this, native
    {
      && native.Valid()
      && running == !closed
      && (closed ==> keys == map[])
      && (!closed ==> forall s: nat | s < SLOTS ::
            && (s in keys <==> native.slots[s].loaded)
            && (s in keys ==> native.slots[s].kind.P256? && keys[s] == Pin(native.slots[s].epoch, PublicOf(host, native.slots[s].key))))
      && forall s | s in keys :: s < SLOTS
    }

    constructor (host: Host)
      ensures Valid() && fresh(native) && !closed && keys == map[] && this.host == host
    {
      this.host, closed, running, keys := host, false, true, map[];
      native := new Context();
    }

    /** Close the signer, forget every pin and close the runtime; closing twice does nothing more. */
    method Close()
      requires native.Valid()
      modifies this
      ensures Valid() && closed && keys == map[] && !running
    {
      closed := true;
      keys := map[];
      running := false;
    }

    /** `exported` is what the device claims to be the public key of the slot; None when the export fails. */
    method LoadKey(slot: nat, key: Bytes, expected: nat, exported: Option<Bytes>) returns (r: Outcome<nat>)
      requires Valid()
      modifies this, native`slots
      ensures Valid() && (old(closed) ==> closed && r == Rejected && native.slots == old(native.slots))
      ensures r.Done? ==> !closed && slot < SLOTS && IsPrivate(key) && exported == Some(PublicOf(host, key))
                          && r.value == expected + 1
                          && native.slots == old(native.slots)[slot := Slot(key, r.value, KeySlots.P256, true)]
                          && keys == old(keys)[slot := Pin(r.value, PublicOf(host, key))]
      ensures r == Rejected ==> closed == old(closed) && keys == old(keys) && native.slots == old(native.slots)
      ensures r == Fault <==> !old(closed) && closed
      ensures var accepted := !old(closed) && slot < SLOTS && expected <= LAST_EPOCH && IsPrivate(key)
                              && Put(old(native.slots), slot, KeySlots.P256, key, true, expected).1 == Ok;
              (r == Rejected <==> !accepted) && (r == Fault <==> accepted && exported != Some(PublicOf(host, key)))
    {
      if slot >= SLOTS || expected > LAST_EPOCH || !IsPrivate(key) || closed {
        return Rejected;
      }
      var public := PublicOf(host, key);
      var code, epoch := native.PutKey(slot, KeySlots.P256, key, IsPrivate(key), expected);
      if code != Ok {
        return Rejected;
      }
      if exported != Some(public) {
        Close();
        return Fault;
      }
      keys := keys[slot := Pin(epoch, public)];
      return Done(epoch);
    }

    method RetireKey(slot: nat, expected: nat) returns (r: Outcome<nat>)
      requires Valid()
      modifies this, native`slots
      ensures Valid() && closed == old(closed) && (old(closed) ==> r == Rejected)
      ensures r.Done? ==> slot < SLOTS && slot in old(keys) && old(keys)[slot].epoch == expected
                          && r.value == native.slots[slot].epoch == expected + 1 && keys == old(keys) - {slot}
      ensures r == Rejected ==> keys == old(keys) && native.slots == old(native.slots)
      ensures r != Fault
      ensures r.Done? <==> !old(closed) && slot < SLOTS && expected <= LAST_EPOCH
                           && Remove(old(native.slots), slot, expected).1 == Ok
    {
      if slot >= SLOTS || expected > LAST_EPOCH || closed {
        return Rejected;
      }
      var code, epoch := native.RemoveKey(slot, expected);
      if code != Ok {
        return Rejected;
      }
      keys := keys - {slot};
      return Done(epoch);
    }

    method PublicKey(slot: nat) returns (r: Outcome<Pin>)
      requires Valid()
      ensures r.Done? <==> !closed && slot in keys
      ensures r.Done? || r == Rejected
      ensures r.Done? ==> r.value == Pin(native.slots[slot].epoch, PublicOf(host, native.slots[slot].key))
    {
      return if closed || slot !in keys then Rejected else Done(keys[slot]);
    }

    /** `device` is whatever the device makes of the digests under the slot's key. A batch that is returned was produced
        under the required epoch and verifies in full; anything else closes the signer. */
    method Sign(slot: nat, digests: seq<Digest>, expected: nat, device: Bytes -> Execution<Bytes>) returns (r: Outcome<seq<Bytes>>)
      requires Valid() && forall key :: Sensible(device(key), |digests|)
      modifies this, native`stats
      ensures Valid() && native.slots == old(native.slots)
      ensures r.Done? ==>
                && !closed && keys == old(keys) && |digests| <= MAX_BATCH
                && slot in keys && keys[slot].epoch == expected == native.slots[slot].epoch
                && device(native.slots[slot].key).Executed? && r.value == device(native.slots[slot].key).outputs
                && |r.value| == |digests|
                && forall i | 0 <= i < |digests| ::
                     Verifies(host, PublicOf(host, native.slots[slot].key), digests[i], r.value[i])
      ensures r == Rejected <==> old(closed) || |digests| > MAX_BATCH || slot !in old(keys) || old(keys)[slot].epoch != expected
      ensures r == Rejected ==> closed == old(closed) && keys == old(keys)
      ensures r == Fault <==> !old(closed) && closed
      ensures r != Rejected ==> (r.Done? <==> Trusted(host, device(old(native.slots)[slot].key),
                                                      PublicOf(host, old(native.slots)[slot].key), digests))
    {
      if |digests| > MAX_BATCH || closed || slot !in keys || keys[slot].epoch != expected {
        return Rejected;
      }
      var public := keys[slot].public;
      var code, report, statuses, signatures := native.Keyed(slot, KeySlots.P256, Some(expected), |digests|, device);
      if code != Ok || Errors(statuses) != 0
         || |signatures| != |digests| || report != Report(|digests|, |digests|, 0, expected) {
        Close();
        return Fault;
      }
      for i := 0 to |digests|
        invariant Valid() && native.slots == old(native.slots) && keys == old(keys) && !closed
        invariant forall j | 0 <= j < i :: Verifies(host, public, digests[j], signatures[j])
      {
        AcceptableExactly(host, public, digests[i], signatures[i]);
        if !Acceptable(host, public, digests[i], signatures[i]) {
          Close();
          return Fault;
        }
      }
      return Done(signatures);
    }
  }

  // ----- Sessions

  datatype Call =
    | Load(slot: nat, key: Bytes, expected: nat, exported: Option<Bytes>)
    | Retire(slot: nat, expected: nat)
    | Export(slot: nat)
    | SignAll(slot: nat, digests: seq<Digest>, expected: nat, device: Bytes -> Execution<Bytes>)
    | CloseNow

  /** How a call ended. */
  datatype Ending = Granted | Denied | Faulted

  function EndingOf<T>(r: Outcome<T>): Ending {
    match r
    case Done(_) => Granted
    case Rejected => Denied
    case Fault => Faulted
  }

  /** The call ended the session, by a fault or as asked. */
  predicate Ends(call: Call, ending: Ending) {
    ending.Faulted? || call.CloseNow?
  }

  /** One call: it is denied by a closed signer, and closes an open one exactly by a fault or as asked. */
  method Answer(signer: VerifiedSigner, call: Call) returns (ending: Ending)
    requires signer.Valid()
    requires call.SignAll? ==> forall key :: Sensible(call.device(key), |call.digests|)
    modifies signer, signer.native
    ensures signer.Valid()
    ensures signer.closed <==> old(signer.closed) || Ends(call, ending)
    ensures old(signer.closed) ==> signer.native.slots == old(signer.native.slots) && (call.CloseNow? || ending.Denied?)
  {
    match call
    case Load(slot, key, expected, exported) =>
      var r := signer.LoadKey(slot, key, expected, exported);
      return EndingOf(r);
    case Retire(slot, expected) =>
      var r := signer.RetireKey(slot, expected);
      return EndingOf(r);
    case Export(slot) =>
      var r := signer.PublicKey(slot);
      return EndingOf(r);
    case SignAll(slot, digests, expected, device) =>
      var r := signer.Sign(slot, digests, expected, device);
      return EndingOf(r);
    case CloseNow =>
      signer.Close();
      return Granted;
  }

  /** Over any sequence of calls the first fault or closing ends the session: every later call but a closing is denied. The
      signer is closed in the end exactly if it was before or one of these happened. */
  method Session(signer: VerifiedSigner, calls: seq<Call>) returns (endings: seq<Ending>)
    requires signer.Valid()
    requires forall i, key | 0 <= i < |calls| && calls[i].SignAll? :: Sensible(calls[i].device(key), |calls[i].digests|)
    modifies signer, signer.native
    ensures signer.Valid() && |endings| == |calls|
    ensures forall i, j | 0 <= i < j < |calls| && Ends(calls[i], endings[i]) ::
              calls[j].CloseNow? || endings[j].Denied?
    ensures signer.closed <==> old(signer.closed) || exists i :: 0 <= i < |calls| && Ends(calls[i], endings[i])
    ensures old(signer.closed) ==> signer.native.slots == old(signer.native.slots)
                                   && forall i | 0 <= i < |calls| :: calls[i].CloseNow? || endings[i].Denied?
  {
    endings := [];
    for n := 0 to |calls|
      invariant signer.Valid() && |endings| == n
      invariant forall i, j | 0 <= i < j < n && Ends(calls[i], endings[i]) ::
                  calls[j].CloseNow? || endings[j].Denied?
      invariant signer.closed <==> old(signer.closed) || exists i :: 0 <= i < n && Ends(calls[i], endings[i])
      invariant old(signer.closed) ==> signer.native.slots == old(signer.native.slots)
                                       && forall i | 0 <= i < n :: calls[i].CloseNow? || endings[i].Denied?
    {
      ghost var before := endings;
      var ending := Answer(signer, calls[n]);
      endings := endings + [ending];
      assert forall i | 0 <= i < n :: endings[i] == before[i];
    }
  }
}
