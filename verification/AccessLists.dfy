/**
 * The per-transaction access list of EIP-2929: a map from addresses to positions in a list of
 * slot sets, where position -1 marks an address that was touched without any slot.
 */
module AccessLists {
  import opened EvmTypes

  datatype AccessList = AccessList(addresses: map<Address, int>, slots: seq<set<Hash>>) {

    predicate ContainsAddress(addr: Address) {
      addr in addresses
    }

    /** A slot is present when its address points at a set that holds it. */
    predicate ContainsSlot(addr: Address, slot: Hash) {
      addr in addresses && 0 <= addresses[addr] < |slots| && slot in slots[addresses[addr]]
    }

    /** Positions are in range, no two addresses share one and no set is empty. */
    ghost predicate Valid() {
      && (forall a :: a in addresses ==> -1 <= addresses[a] < |slots|)
      && (forall a, b :: a in addresses && b in addresses && addresses[a] == addresses[b] != -1 ==> a == b)
      && (forall i :: 0 <= i < |slots| ==> slots[i] != {})
    }

    function AddAddress(addr: Address): AccessList {
      if addr in addresses then this else AccessList(addresses[addr := -1], slots)
    }

    function AddSlot(addr: Address, slot: Hash): AccessList {
      if addr !in addresses || !(0 <= addresses[addr] < |slots|) then
        AccessList(addresses[addr := |slots|], slots + [{slot}])
      else
        var i := addresses[addr];
        AccessList(addresses, slots[i := slots[i] + {slot}])
    }

    /** Undoes the most recent addition of a slot; the address must hold a slot set. */
    function DeleteSlot(addr: Address, slot: Hash): AccessList
      requires addr in addresses && 0 <= addresses[addr] < |slots|
    {
      var i := addresses[addr];
      var rest := slots[i] - {slot};
      if rest == {} then AccessList(addresses[addr := -1], slots[..i])
      else AccessList(addresses, slots[i := rest])
    }

    function DeleteAddress(addr: Address): AccessList {
      AccessList(addresses - {addr}, slots)
    }

    /** The plain set of touched addresses that the index stands for. */
    ghost function Warm(): set<Address> {
      addresses.Keys
    }

    /** The plain set of touched (address, slot) pairs that the index stands for. */
    ghost function WarmSlots(): iset<(Address, Hash)> {
      iset a: Address, s: Hash | ContainsSlot(a, s) :: (a, s)
    }
  }

  const EMPTY := AccessList(map[], [])

  /** Adding an address changes only the set of addresses, and the index stays well formed. */
  lemma AddAddressRefines(al: AccessList, addr: Address)
    requires al.Valid()
    ensures al.AddAddress(addr).Valid()
    ensures al.AddAddress(addr).Warm() == al.Warm() + {addr}
    ensures al.AddAddress(addr).WarmSlots() == al.WarmSlots()
  {
    var al' := al.AddAddress(addr);
    forall a: Address, s: Hash
      ensures al'.ContainsSlot(a, s) <==> al.ContainsSlot(a, s)
    {
    }
  }

  lemma AddSlotValid(al: AccessList, addr: Address, slot: Hash)
    requires al.Valid()
    ensures al.AddSlot(addr, slot).Valid()
  {
  }

  /** Adding a slot adds exactly that pair and its address, whichever branch builds the index. */
  lemma AddSlotRefines(al: AccessList, addr: Address, slot: Hash)
    requires al.Valid()
    ensures al.AddSlot(addr, slot).Valid()
    ensures al.AddSlot(addr, slot).Warm() == al.Warm() + {addr}
    ensures al.AddSlot(addr, slot).WarmSlots() == al.WarmSlots() + iset{(addr, slot)}
  {
    AddSlotValid(al, addr, slot);
    var al' := al.AddSlot(addr, slot);
    forall a: Address, s: Hash
      ensures al'.ContainsSlot(a, s) <==> al.ContainsSlot(a, s) || (a, s) == (addr, slot)
    {
    }
  }

  /**
   * Undoing a slot addition restores the index itself. When the slot was the first of its address
   * the set being emptied is the last one, so the truncation drops that set and nothing else.
   */
  lemma DeleteSlotUndoesAddSlot(al: AccessList, addr: Address, slot: Hash)
    requires al.Valid() && al.ContainsAddress(addr) && !al.ContainsSlot(addr, slot)
    ensures var added := al.AddSlot(addr, slot);
            && added.ContainsSlot(addr, slot)
            && added.DeleteSlot(addr, slot) == al
            && (added.slots[added.addresses[addr]] == {slot} ==> added.addresses[addr] == |added.slots| - 1)
  {
    var added := al.AddSlot(addr, slot);
    if al.addresses[addr] == -1 {
      assert added.slots[|al.slots|] == {slot};
      assert added.slots[..|al.slots|] == al.slots;
      assert al.addresses[addr := |al.slots|][addr := -1] == al.addresses;
    } else {
      var i := al.addresses[addr];
      assert (al.slots[i] + {slot}) - {slot} == al.slots[i];
      assert al.slots[i := al.slots[i] + {slot}][i := al.slots[i]] == al.slots;
    }
  }

  /** Undoing the first touch of an address restores the index: at that point it holds no slots. */
  lemma DeleteAddressUndoesAddAddress(al: AccessList, addr: Address)
    requires al.Valid() && !al.ContainsAddress(addr)
    ensures var added := al.AddAddress(addr);
            added.addresses[addr] == -1 && added.DeleteAddress(addr) == al
  {
    assert al.addresses[addr := -1] - {addr} == al.addresses;
  }
}
