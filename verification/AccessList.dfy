/** The access list of a transaction (EIP-2929): addresses, and storage slots of addresses. */
module AccessList {

  type Address = nat
  type Hash = nat

  const NO_SLOTS: int := -1

  /** The contents of an access list: every address has the place of its slots in the list of slot
      sets, or -1 when it has none. */
  datatype State = State(addresses: map<Address, int>, slots: seq<set<Hash>>)

  /** The non-negative places are a bijection between addresses and slot sets, and no slot set is
      empty. */
  ghost predicate Valid(s: State) {
    && (forall a :: a in s.addresses ==> NO_SLOTS <= s.addresses[a] < |s.slots|)
    && (forall a, b :: a in s.addresses && b in s.addresses && s.addresses[a] == s.addresses[b] >= 0 ==> a == b)
    && (forall i :: 0 <= i < |s.slots| ==> s.slots[i] != {} && HasOwner(s, i))
  }

  ghost predicate HasOwner(s: State, i: int) {
    exists a :: a in s.addresses && s.addresses[a] == i
  }

  predicate HasSlot(s: State, a: Address, h: Hash) {
    a in s.addresses && 0 <= s.addresses[a] < |s.slots| && h in s.slots[s.addresses[a]]
  }

  // ---------- Single operations ----------

  function AddAddress(s: State, a: Address): State {
    if a in s.addresses then s else s.(addresses := s.addresses[a := NO_SLOTS])
  }

  function AddSlot(s: State, a: Address, h: Hash): State
    requires Valid(s)
  {
    if a !in s.addresses || s.addresses[a] == NO_SLOTS then
      State(s.addresses[a := |s.slots|], s.slots + [{h}])
    else
      var i := s.addresses[a];
      s.(slots := s.slots[i := s.slots[i] + {h}])
  }

  function DeleteSlot(s: State, a: Address, h: Hash): State
    requires a in s.addresses && 0 <= s.addresses[a] < |s.slots|
  {
    var i := s.addresses[a];
    var left := s.slots[i] - {h};
    if left == {} then State(s.addresses[a := NO_SLOTS], s.slots[..i])
    else s.(slots := s.slots[i := left])
  }

  function DeleteAddress(s: State, a: Address): State {
    s.(addresses := s.addresses - {a})
  }

  lemma AddAddressValid(s: State, a: Address)
    requires Valid(s)
    ensures Valid(AddAddress(s, a))
    ensures forall b, h :: HasSlot(AddAddress(s, a), b, h) <==> HasSlot(s, b, h)
    ensures AddAddress(s, a).addresses.Keys == s.addresses.Keys + {a}
  {
    var s' := AddAddress(s, a);
    forall i | 0 <= i < |s'.slots| ensures HasOwner(s', i) {
      assert HasOwner(s, i);
      var b :| b in s.addresses && s.addresses[b] == i;
      assert b in s'.addresses && s'.addresses[b] == i;
    }
  }

  lemma AddSlotSlots(s: State, a: Address, h: Hash)
    requires Valid(s)
    ensures forall b, g :: HasSlot(AddSlot(s, a, h), b, g) <==> HasSlot(s, b, g) || (b == a && g == h)
  {
    hide HasOwner;
  }

  /** Adding a slot adds that slot of that address, the address itself, and nothing else. */
  lemma AddSlotValid(s: State, a: Address, h: Hash)
    requires Valid(s)
    ensures Valid(AddSlot(s, a, h))
    ensures forall b, g :: HasSlot(AddSlot(s, a, h), b, g) <==> HasSlot(s, b, g) || (b == a && g == h)
    ensures AddSlot(s, a, h).addresses.Keys == s.addresses.Keys + {a}
  {
    hide HasSlot;
    AddSlotSlots(s, a, h);
    var s' := AddSlot(s, a, h);
    forall i | 0 <= i < |s'.slots| ensures HasOwner(s', i) && s'.slots[i] != {} {
      if i < |s.slots| {
        assert HasOwner(s, i) && s.slots[i] != {};
        var b :| b in s.addresses && s.addresses[b] == i;
        assert b in s'.addresses && s'.addresses[b] == i;
        assert s.slots[i] <= s'.slots[i];
      } else {
        assert s'.addresses[a] == i;
        assert h in s'.slots[i];
      }
    }
  }

  /** Deleting a slot leaves a well-formed list exactly when slots of the address are left or its slot
      set is the newest one: otherwise newer slot sets are cut off with it. */
  lemma DeleteSlotValid(s: State, a: Address, h: Hash)
    requires Valid(s)
    requires a in s.addresses && 0 <= s.addresses[a]
    ensures Valid(DeleteSlot(s, a, h)) <==> s.slots[s.addresses[a]] != {h} || s.addresses[a] == |s.slots| - 1
  {
    var i := s.addresses[a];
    var s' := DeleteSlot(s, a, h);
    assert s.slots[i] != {} && HasOwner(s, i);
    assert s.slots[i] - {h} == {} <==> s.slots[i] == {h};
    if s.slots[i] == {h} && i < |s.slots| - 1 {
      assert HasOwner(s, i + 1);
      var b :| b in s.addresses && s.addresses[b] == i + 1;
      assert b in s'.addresses && s'.addresses[b] == i + 1;
    } else {
      forall j | 0 <= j < |s'.slots| ensures HasOwner(s', j) && s'.slots[j] != {} {
        assert HasOwner(s, j) && s.slots[j] != {};
        var b :| b in s.addresses && s.addresses[b] == j;
        assert b in s'.addresses && s'.addresses[b] == j;
      }
    }
  }

  // ---------- Undoing ----------

  /** What a caller does, and what is noted in the journal for every change reported. */
  datatype Op = Address(a: Address) | Slot(a: Address, h: Hash)
  datatype Entry = AddedAddress(a: Address) | AddedSlot(a: Address, h: Hash)

  function Apply(s: State, op: Op): State
    requires Valid(s)
  {
    match op
    case Address(a) => AddAddress(s, a)
    case Slot(a, h) => AddSlot(s, a, h)
  }

  /** The changes an operation reports, in the order in which they are noted. */
  function Reported(s: State, op: Op): seq<Entry> {
    match op
    case Address(a) => if a in s.addresses then [] else [AddedAddress(a)]
    case Slot(a, h) =>
      (if a in s.addresses then [] else [AddedAddress(a)]) + (if HasSlot(s, a, h) then [] else [AddedSlot(a, h)])
  }

  /** An entry can be undone: slots of the address are there. */
  predicate CanUndo(s: State, e: Entry) {
    e.AddedSlot? ==> e.a in s.addresses && 0 <= s.addresses[e.a] < |s.slots|
  }

  function UndoOne(s: State, e: Entry): State
    requires CanUndo(s, e)
  {
    match e
    case AddedAddress(a) => DeleteAddress(s, a)
    case AddedSlot(a, h) => DeleteSlot(s, a, h)
  }

  /** The journal entries can be undone from the last to the first. */
  predicate Undoable(s: State, journal: seq<Entry>)
    decreases |journal|
  {
    journal == [] ||
    (CanUndo(s, journal[|journal| - 1]) && Undoable(UndoOne(s, journal[|journal| - 1]), journal[..|journal| - 1]))
  }

  /** Undoes journal entries from the last to the first. */
  function Undo(s: State, journal: seq<Entry>): State
    requires Undoable(s, journal)
    decreases |journal|
  {
    if journal == [] then s
    else Undo(UndoOne(s, journal[|journal| - 1]), journal[..|journal| - 1])
  }

  /** Undoing the changes one operation reported restores the list exactly. */
  lemma UndoApplied(s: State, op: Op, journal: seq<Entry>)
    requires Valid(s) && Undoable(s, journal)
    ensures Undoable(Apply(s, op), journal + Reported(s, op))
    ensures Undo(Apply(s, op), journal + Reported(s, op)) == Undo(s, journal)
  {
    var s', rs := Apply(s, op), Reported(s, op);
    var all := journal + rs;
    match op {
      case Address(a) =>
        if a in s.addresses {
          assert all == journal;
        } else {
          assert DeleteAddress(s', a) == s by { assert s.addresses[a := NO_SLOTS] - {a} == s.addresses; }
          assert all[..|all| - 1] == journal;
        }
      case Slot(a, h) =>
        if HasSlot(s, a, h) {
          assert s.slots[s.addresses[a]] + {h} == s.slots[s.addresses[a]];
          assert s' == s && all == journal;
        } else if a in s.addresses {
          AddedSlotUndone(s, a, h);
          assert all[..|all| - 1] == journal;
        } else {
          NewAddressUndone(s, a, h);
          assert all[..|all| - 1] == journal + [AddedAddress(a)];
          assert (journal + [AddedAddress(a)])[..|journal|] == journal;
        }
    }
  }

  lemma AddedSlotUndone(s: State, a: Address, h: Hash)
    requires Valid(s) && a in s.addresses && !HasSlot(s, a, h)
    ensures CanUndo(AddSlot(s, a, h), AddedSlot(a, h)) && DeleteSlot(AddSlot(s, a, h), a, h) == s
  {
    var s' := AddSlot(s, a, h);
    var i := s'.addresses[a];
    if s.addresses[a] == NO_SLOTS {
      assert s'.slots[i] - {h} == {};
      assert s'.slots[..i] == s.slots && s'.addresses[a := NO_SLOTS] == s.addresses;
    } else {
      assert s.slots[i] != {} && s'.slots[i] - {h} == s.slots[i];
      assert s'.slots[i := s.slots[i]] == s.slots;
    }
  }

  lemma NewAddressUndone(s: State, a: Address, h: Hash)
    requires Valid(s) && a !in s.addresses
    ensures CanUndo(AddSlot(s, a, h), AddedSlot(a, h))
    ensures DeleteAddress(DeleteSlot(AddSlot(s, a, h), a, h), a) == s
  {
    var s' := AddSlot(s, a, h);
    assert s'.slots[|s.slots|] - {h} == {};
    assert s'.slots[..|s.slots|] == s.slots;
    assert s'.addresses[a := NO_SLOTS] - {a} == s.addresses;
  }

  function ApplyAll(s: State, ops: seq<Op>): (r: State)
    requires Valid(s)
    ensures Valid(r)
    decreases |ops|
  {
    if ops == [] then s else
      var p := ApplyAll(s, ops[..|ops| - 1]);
      assert Valid(Apply(p, ops[|ops| - 1])) by { ApplyValid(p, ops[|ops| - 1]); }
      Apply(p, ops[|ops| - 1])
  }

  lemma ApplyValid(s: State, op: Op)
    requires Valid(s)
    ensures Valid(Apply(s, op))
  {
    match op
    case Address(a) => AddAddressValid(s, a);
    case Slot(a, h) => AddSlotValid(s, a, h);
  }

  /** Everything noted in the journal while the operations ran. */
  function Journal(s: State, ops: seq<Op>): seq<Entry>
    requires Valid(s)
    decreases |ops|
  {
    if ops == [] then [] else
      Journal(s, ops[..|ops| - 1]) + Reported(ApplyAll(s, ops[..|ops| - 1]), ops[|ops| - 1])
  }

  /** Undoing everything reported since, in reverse order, restores the exact earlier list. */
  lemma {:induction false} UndoRestores(s: State, ops: seq<Op>)
    requires Valid(s)
    ensures Undoable(ApplyAll(s, ops), Journal(s, ops))
    ensures Undo(ApplyAll(s, ops), Journal(s, ops)) == s
    decreases |ops|
  {
    hide Valid, Apply, Reported, UndoOne, CanUndo;
    if ops != [] {
      var before := ops[..|ops| - 1];
      UndoRestores(s, before);
      UndoApplied(ApplyAll(s, before), ops[|ops| - 1], Journal(s, before));
    }
  }

  /** Undoing out of order can cut off slots of other addresses: here the slot of address 2 is lost
      when that of address 1, which was added before it, is deleted first. */
  lemma OutOfOrderLosesSlots()
    ensures exists s :: Valid(s) && HasSlot(s, 1, 7) && HasSlot(s, 2, 7) && !HasSlot(DeleteSlot(s, 1, 7), 2, 7)
  {
    var s := State(map[1 := 0, 2 := 1], [{7}, {7}]);
    assert s.addresses[1] == 0 && s.addresses[2] == 1;
    assert HasOwner(s, 0) && HasOwner(s, 1);
    assert Valid(s);
    assert s.slots[0] - {7} == {};
    assert HasSlot(s, 1, 7) && HasSlot(s, 2, 7) && !HasSlot(DeleteSlot(s, 1, 7), 2, 7);
  }

  // ---------- The list in memory ----------

  class List {
    var addresses: map<Address, int>
    var slots: seq<set<Hash>>

    ghost function Contents(): State
      reads this
    {
      State(addresses, slots)
    }

    constructor ()
      ensures Contents() == State(map[], []) && Valid(Contents())
    {
      addresses, slots := map[], [];
    }

    method Contains(a: Address, h: Hash) returns (addressPresent: bool, slotPresent: bool)
      requires Valid(Contents())
      ensures addressPresent <==> a in addresses
      ensures slotPresent <==> HasSlot(Contents(), a, h)
    {
      if a !in addresses {
        return false, false;
      }
      var idx := addresses[a];
      if idx == NO_SLOTS {
        return true, false;
      }
      return true, h in slots[idx];
    }

    method AddAddress(a: Address) returns (changed: bool)
      requires Valid(Contents())
      modifies this
      ensures Valid(Contents()) && Contents() == Apply(old(Contents()), Address(a))
      ensures changed <==> Reported(old(Contents()), Address(a)) != []
    {
      AddAddressValid(Contents(), a);
      if a in addresses {
        return false;
      }
      addresses := addresses[a := NO_SLOTS];
      return true;
    }

    method AddSlot(a: Address, h: Hash) returns (addrChange: bool, slotChange: bool)
      requires Valid(Contents())
      modifies this
      ensures Valid(Contents()) && Contents() == Apply(old(Contents()), Slot(a, h))
      ensures Reported(old(Contents()), Slot(a, h)) ==
        (if addrChange then [AddedAddress(a)] else []) + (if slotChange then [AddedSlot(a, h)] else [])
    {
      AddSlotValid(Contents(), a, h);
      if a !in addresses || addresses[a] == NO_SLOTS {
        addrChange := a !in addresses;
        addresses := addresses[a := |slots|];
        slots := slots + [{h}];
        return addrChange, true;
      }
      var idx := addresses[a];
      if h !in slots[idx] {
        slots := slots[idx := slots[idx] + {h}];
        return false, true;
      }
      assert slots[idx] + {h} == slots[idx];
      return false, false;
    }

    /** Deletes a slot of an address that has slots. */
    method DeleteSlot(a: Address, h: Hash)
      requires Valid(Contents()) && CanUndo(Contents(), AddedSlot(a, h))
      modifies this
      ensures Contents() == UndoOne(old(Contents()), AddedSlot(a, h))
    {
      var idx := addresses[a];
      slots := slots[idx := slots[idx] - {h}];
      if slots[idx] == {} {
        slots := slots[..idx];
        addresses := addresses[a := NO_SLOTS];
      }
    }

    method DeleteAddress(a: Address)
      modifies this
      ensures Contents() == UndoOne(old(Contents()), AddedAddress(a))
    {
      addresses := addresses - {a};
    }
  }
}
