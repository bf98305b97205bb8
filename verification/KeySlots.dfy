/** The key slots: which hold a key, which are protected, and the operations that create, delete and protect them. */
module KeySlots {

  const CA_SLOT := 0
  const KEY_TYPE_P256 := 1

  /** What the volume's marker says about it. */
  datatype Volume = Valid | Mismatch | Unmarked

  /** The key in each slot, and for slots with metadata whether they are protected. */
  datatype Keys = Keys(key: map<nat, nat>, guarded: map<nat, bool>)

  datatype Code = Done(slot: nat) | Unsupported | Exists | Refused | NoSlots | NotFound | Invalid | Protected | Failed

  /** Whether the steps that can fail did not: making and writing the key, and writing its metadata. */
  datatype Luck = Luck(made: bool, noted: bool)

  predicate Trusted(v: Volume)
  {
    v != Mismatch
  }

  /** An unmarked volume is trusted with new keys only once a CA key shows that it was provisioned. */
  predicate MayMint(v: Volume, k: Keys)
  {
    match v case Valid => true case Mismatch => false case Unmarked => CA_SLOT in k.key
  }

  predicate Supported(keyType: nat)
  {
    keyType == 0 || keyType == KEY_TYPE_P256
  }

  /** A new key in `slot`, with its metadata if that could be written. */
  function Install(k: Keys, slot: nat, secret: nat, guard: bool, luck: Luck): (r: Keys)
  {
    if !luck.made then k
    else k.(key := k.key[slot := secret], guarded := if luck.noted then k.guarded[slot := guard] else k.guarded)
  }

  function ProvisionCode(v: Volume, k: Keys, keyType: nat, luck: Luck): (r: Code)
  {
    if !Supported(keyType) then Unsupported
    else if CA_SLOT in k.key then Exists
    else if !MayMint(v, k) then Refused
    else if !luck.made || !luck.noted then Failed else Done(CA_SLOT)
  }

  function Provision(v: Volume, k: Keys, keyType: nat, secret: nat, luck: Luck): (r: Keys)
  {
    if ProvisionCode(v, k, keyType, luck).Done? || ProvisionCode(v, k, keyType, luck).Failed?
    then Install(k, CA_SLOT, secret, true, luck) else k
  }

  /** The lowest free slot from `i` on. */
  function FirstFree(k: Keys, i: nat, n: nat): (s: nat)
    requires i <= n
    ensures i <= s <= n && (s < n ==> s !in k.key) && forall j :: i <= j < s ==> j in k.key
    decreases n - i
  {
    if i == n || i !in k.key then i else FirstFree(k, i + 1, n)
  }

  function GenKeyCode(v: Volume, k: Keys, n: nat, keyType: nat, luck: Luck): (r: Code)
    requires n > 0
  {
    if !Supported(keyType) then Unsupported
    else if !MayMint(v, k) then Refused
    else if FirstFree(k, 1, n) == n then NoSlots
    else if !luck.made || !luck.noted then Failed else Done(FirstFree(k, 1, n))
  }

  function GenKey(v: Volume, k: Keys, n: nat, keyType: nat, secret: nat, luck: Luck): (r: Keys)
    requires n > 0
  {
    if GenKeyCode(v, k, n, keyType, luck).Done? || GenKeyCode(v, k, n, keyType, luck).Failed?
    then Install(k, FirstFree(k, 1, n), secret, false, luck) else k
  }

  /** Whether the slot's files could be removed; the key is overwritten with garbage before that. */
  datatype Wipe = Removed | Garbled(garbage: nat)

  function DeleteCode(k: Keys, n: nat, slot: nat, wipe: Wipe): (r: Code)
  {
    if slot == CA_SLOT then Refused
    else if slot >= n then Invalid
    else if slot !in k.key then NotFound
    else if slot in k.guarded && k.guarded[slot] then Protected
    else if wipe.Removed? then Done(slot) else Failed
  }

  function Delete(k: Keys, n: nat, slot: nat, wipe: Wipe): (r: Keys)
  {
    match DeleteCode(k, n, slot, wipe)
    case Done(_) => Keys(k.key - {slot}, k.guarded - {slot})
    case Failed => if wipe.Garbled? then k.(key := k.key[slot := wipe.garbage]) else k
    case _ => k
  }

  function GuardCode(k: Keys, n: nat, slot: nat, noted: bool): (r: Code)
  {
    if slot >= n then Invalid else if slot !in k.key then NotFound
    else if slot !in k.guarded || !noted then Failed else Done(slot)
  }

  /** Protecting a slot, or lifting its protection; `noted` says whether the metadata could be written. */
  function Guard(k: Keys, n: nat, slot: nat, on: bool, noted: bool): (r: Keys)
  {
    if GuardCode(k, n, slot, noted).Done? then k.(guarded := k.guarded[slot := on]) else k
  }

  class Slots {
    const n: nat
    const volume: Volume
    var key: map<nat, nat>
    var guarded: map<nat, bool>

    function Val(): (k: Keys)
      reads this
    {
      Keys(key, guarded)
    }

    constructor (n: nat, volume: Volume, key: map<nat, nat>, guarded: map<nat, bool>)
      ensures this.n == n && this.volume == volume && Val() == Keys(key, guarded)
    {
      this.n, this.volume, this.key, this.guarded := n, volume, key, guarded;
    }

    method ProvisionCa(keyType: nat, secret: nat, luck: Luck) returns (code: Code)
      modifies this
      ensures code == ProvisionCode(volume, old(Val()), keyType, luck)
      ensures Val() == Provision(volume, old(Val()), keyType, secret, luck)
      ensures code.Unsupported? <==> keyType > 1
      ensures keyType <= 1 ==> (code.Exists? <==> CA_SLOT in old(key))
      ensures keyType <= 1 && CA_SLOT !in old(key) ==> (code.Refused? <==> volume != Valid)
      ensures code.Done? ==> CA_SLOT !in old(key) && key == old(key)[CA_SLOT := secret]
                             && guarded == old(guarded)[CA_SLOT := true]
      ensures code.Failed? ==> guarded == old(guarded) && key == if luck.made then old(key)[CA_SLOT := secret] else old(key)
      ensures !code.Done? && !code.Failed? ==> key == old(key) && guarded == old(guarded)
    {
      var kt := if keyType == 0 then KEY_TYPE_P256 else keyType;
      if kt != KEY_TYPE_P256 {
        return Unsupported;
      }
      if CA_SLOT in key {
        return Exists;
      }
      if !MayMint(volume, Val()) {
        return Refused;
      }
      if !luck.made {
        return Failed;
      }
      key := key[CA_SLOT := secret];
      if !luck.noted {
        return Failed;
      }
      guarded := guarded[CA_SLOT := true];
      return Done(CA_SLOT);
    }

    method GenerateKey(keyType: nat, secret: nat, luck: Luck) returns (code: Code)
      requires n > 0
      modifies this
      ensures code == GenKeyCode(volume, old(Val()), n, keyType, luck)
      ensures Val() == GenKey(volume, old(Val()), n, keyType, secret, luck)
      ensures code.Unsupported? <==> keyType > 1
      ensures keyType <= 1 ==> (code.Refused? <==> volume == Mismatch || (volume == Unmarked && CA_SLOT !in old(key)))
      ensures code.Done? ==> code.slot !in old(key) && 1 <= code.slot < n && key == old(key)[code.slot := secret]
                             && guarded == old(guarded)[code.slot := false]
      ensures code.Done? ==> forall i :: 1 <= i < code.slot ==> i in old(key)
      ensures code.NoSlots? ==> forall i :: 1 <= i < n ==> i in key
      ensures code.Failed? ==> guarded == old(guarded) && (!luck.made ==> key == old(key))
      ensures !code.Done? && !code.Failed? ==> key == old(key) && guarded == old(guarded)
    {
      var kt := if keyType == 0 then KEY_TYPE_P256 else keyType;
      if kt != KEY_TYPE_P256 {
        return Unsupported;
      }
      if !MayMint(volume, Val()) {
        return Refused;
      }
      var slot := 1;
      while slot < n && slot in key
        invariant 1 <= slot <= n && FirstFree(Val(), 1, n) == FirstFree(Val(), slot, n)
      {
        slot := slot + 1;
      }
      if slot == n {
        return NoSlots;
      }
      if !luck.made {
        return Failed;
      }
      key := key[slot := secret];
      if !luck.noted {
        return Failed;
      }
      guarded := guarded[slot := false];
      return Done(slot);
    }

    method DeleteKey(slot: nat, wipe: Wipe) returns (code: Code)
      modifies this
      ensures code == DeleteCode(old(Val()), n, slot, wipe) && Val() == Delete(old(Val()), n, slot, wipe)
      ensures code.Refused? <==> slot == CA_SLOT
      ensures code.Protected? <==> 0 < slot < n && slot in old(key) && slot in old(guarded) && old(guarded)[slot]
      ensures code.Done? ==> slot != CA_SLOT && slot in old(key) && !(slot in old(guarded) && old(guarded)[slot])
                             && key == old(key) - {slot} && guarded == old(guarded) - {slot}
      ensures code.Failed? ==> wipe.Garbled? && key == old(key)[slot := wipe.garbage] && guarded == old(guarded)
      ensures !code.Done? && !code.Failed? ==> key == old(key) && guarded == old(guarded)
    {
      if slot == CA_SLOT {
        return Refused;
      }
      if slot >= n {
        return Invalid;
      }
      if slot !in key {
        return NotFound;
      }
      if slot in guarded && guarded[slot] {
        return Protected;
      }
      if wipe.Garbled? {
        key := key[slot := wipe.garbage];
        return Failed;
      }
      key := key - {slot};
      guarded := guarded - {slot};
      return Done(slot);
    }

    method SetProtection(slot: nat, on: bool, noted: bool) returns (code: Code)
      modifies this`guarded
      ensures code == GuardCode(old(Val()), n, slot, noted) && Val() == Guard(old(Val()), n, slot, on, noted)
      ensures code.Done? <==> slot < n && slot in key && slot in old(guarded) && noted
      ensures code.Done? ==> slot in guarded && guarded[slot] == on
      ensures guarded.Keys == old(guarded).Keys
      ensures forall s :: s in guarded && (s != slot || !code.Done?) ==> guarded[s] == old(guarded)[s]
    {
      if slot >= n {
        return Invalid;
      }
      if slot !in key {
        return NotFound;
      }
      if slot !in guarded {
        return Failed;
      }
      if !noted {
        return Failed;
      }
      guarded := guarded[slot := on];
      return Done(slot);
    }
  }
}
