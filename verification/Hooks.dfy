/** Installing hook functions in the import slots of a loaded ELF file, all of them or none. */
module Hooks {
  import opened Basics

  type Address = nat
  type Pointer = int

  datatype RelocType = JumpSlot | GlobalData | Other

  /** A relocation; the name is missing if its symbol points behind the string table. */
  datatype Reloc = Reloc(kind: RelocType, name: Option<string>, address: Address)

  /** What plthook_get_mem_prot finds out: nothing, or whether the page can be written. */
  datatype Protection = Unknown | ReadOnly | Writable

  datatype Status = Done | NotFound | InvalidFormat | InternalError

  /** A function to hook and its replacement. */
  datatype Hook = Hook(name: string, address: Pointer)

  /** The slot is for the function itself or for a version of it. */
  predicate Matches(slot: string, base: string) {
    base <= slot && (|slot| == |base| || slot[|base|] == '@')
  }

  /** The names a hook is for, written out. */
  ghost predicate Names(slot: string, base: string) {
    slot == base || exists version :: slot == base + "@" + version
  }

  lemma MatchesIff(slot: string, base: string)
    ensures Matches(slot, base) <==> Names(slot, base)
  {
    if Matches(slot, base) && |slot| > |base| {
      assert slot == base + "@" + slot[|base| + 1..];
    }
    if slot != base && Names(slot, base) {
      var version :| slot == base + "@" + version;
      assert slot[..|base|] == base;
    }
  }

  /** No slot is for two functions: a hook for read is never put into the slot of readlink. */
  lemma OneFunction(slot: string, a: string, b: string)
    requires Matches(slot, a) && Matches(slot, b) && '@' !in a && '@' !in b
    ensures a == b
  {
    assert forall i :: 0 <= i < |a| ==> a[i] == slot[i] && a[i] != '@';
    assert forall i :: 0 <= i < |b| ==> b[i] == slot[i] && b[i] != '@';
    assert |a| == |b|;
  }

  datatype Found = Slot(address: Address) | Broken | Missing

  class Table {
    const plt: seq<Reloc>
    const dyn: seq<Reloc>
    const protection: map<Address, Protection>
    var memory: map<Address, Pointer>

    function Count(): nat {
      |plt| + |dyn|
    }

    function At(i: nat): Reloc
      requires i < Count()
    {
      if i < |plt| then plt[i] else dyn[i - |plt|]
    }

    /** A relocation that is an import slot. */
    predicate Import(i: nat)
      requires i < Count()
    {
      At(i).kind == if i < |plt| then JumpSlot else GlobalData
    }

    /** Every relocation points to memory. */
    ghost predicate Valid()
      reads this
    {
      forall i :: 0 <= i < Count() ==> At(i).address in memory && At(i).address in protection
    }

    /** The first import slot with a matching name, if no broken one comes before it. */
    function Find(name: string, from: nat): Found
      requires from <= Count()
      decreases Count() - from
    {
      if from == Count() then Missing
      else if Import(from) && At(from).name == None then Broken
      else if Import(from) && Matches(At(from).name.value, name) then Slot(At(from).address)
      else Find(name, from + 1)
    }

    lemma {:induction false} Skip(name: string, from: nat, to: nat)
      requires from <= to <= Count() && forall i :: from <= i < to ==> !Import(i)
      ensures Find(name, from) == Find(name, to)
      decreases Count() - from
    {
      if from < to {
        Skip(name, from + 1, to);
      }
    }

    /** An import slot for a function, written out. */
    ghost predicate SlotFor(i: nat, name: string)
      requires i < Count()
    {
      && At(i).kind == (if i < |plt| then JumpSlot else GlobalData)
      && At(i).name.Some? && Names(At(i).name.value, name)
    }

    ghost predicate BrokenSlot(i: nat)
      requires i < Count()
    {
      At(i).kind == (if i < |plt| then JumpSlot else GlobalData) && At(i).name == None
    }

    /** Which slot is found: the first one for the function, unless a broken one comes before it. */
    lemma {:induction false} FindMeans(name: string, from: nat)
      requires from <= Count()
      ensures match Find(name, from)
              case Missing => forall i :: from <= i < Count() ==> !SlotFor(i, name) && !BrokenSlot(i)
              case Broken => exists i :: from <= i < Count() && BrokenSlot(i)
                               && forall j :: from <= j < i ==> !SlotFor(j, name) && !BrokenSlot(j)
              case Slot(a) => exists i :: from <= i < Count() && SlotFor(i, name) && At(i).address == a
                                && forall j :: from <= j < i ==> !SlotFor(j, name) && !BrokenSlot(j)
      decreases Count() - from
    {
      if from < Count() {
        if At(from).name.Some? {
          MatchesIff(At(from).name.value, name);
        }
        if !SlotFor(from, name) && !BrokenSlot(from) {
          FindMeans(name, from + 1);
        }
      }
    }

    /** plthook_enum_with_prot: the next import slot, and where to go on. */
    method Enumerate(pos: nat) returns (next: nat, status: Option<Status>, slot: Reloc)
      requires pos <= Count()
      ensures pos <= next <= Count()
      ensures status == None ==> next == Count() && forall i :: pos <= i < next ==> !Import(i)
      ensures status.Some? ==>
                && pos < next && Import(next - 1) && (forall i :: pos <= i < next - 1 ==> !Import(i))
                && slot == At(next - 1) && status == Some(if slot.name == None then InvalidFormat else Done)
    {
      next := pos;
      slot := Reloc(Other, None, 0);
      while next < |plt|
        invariant pos <= next <= Count() && (next > |plt| ==> next == pos)
        invariant forall i :: pos <= i < next ==> !Import(i)
      {
        slot := plt[next];
        next := next + 1;
        if slot.kind == JumpSlot {
          return next, Some(if slot.name == None then InvalidFormat else Done), slot;
        }
      }
      while next < |plt| + |dyn|
        invariant pos <= next <= Count() && next >= |plt|
        invariant forall i :: pos <= i < next ==> !Import(i)
      {
        slot := dyn[next - |plt|];
        next := next + 1;
        if slot.kind == GlobalData {
          return next, Some(if slot.name == None then InvalidFormat else Done), slot;
        }
      }
      return next, None, slot;
    }

    /** Whether a replacement in the slot of a name succeeds; unlock is what mprotect answers if it is asked. */
    predicate Replaceable(name: string, unlock: bool) {
      var f := Find(name, 0);
      f.Slot? && f.address in protection
      && (protection[f.address] == Writable || (protection[f.address] == ReadOnly && unlock))
    }

    /** plthook_replace */
    method Replace(name: string, address: Pointer, unlock: bool) returns (status: Status, was: Pointer)
      requires Valid()
      modifies this
      ensures Valid() && memory.Keys == old(memory).Keys
      ensures status == Done <==> Replaceable(name, unlock)
      ensures status == NotFound <==> Find(name, 0).Missing?
      ensures status == InvalidFormat <==> Find(name, 0).Broken?
      ensures status == InternalError <==>
                Find(name, 0).Slot? && Find(name, 0).address in protection
                && (protection[Find(name, 0).address] == Unknown
                    || (protection[Find(name, 0).address] == ReadOnly && !unlock))
      ensures status == Done ==>
                var slot := Find(name, 0).address;
                slot in old(memory) && was == old(memory)[slot] && memory == old(memory)[slot := address]
      ensures status != Done ==> memory == old(memory)
    {
      var pos, found, slot := Enumerate(0);
      Skip(name, 0, if found.Some? then pos - 1 else pos);
      was := 0;
      while found == Some(Done)
        invariant pos <= Count() && memory == old(memory)
        invariant found.Some? ==> pos > 0 && Import(pos - 1) && slot == At(pos - 1)
        invariant found.Some? ==> found == Some(if slot.name == None then InvalidFormat else Done)
        invariant Find(name, 0) == if found.Some? then Find(name, pos - 1) else Missing
        decreases Count() - pos + if found.Some? then 1 else 0
      {
        if Matches(slot.name.value, name) {
          var p := protection[slot.address];
          if p == Unknown { return InternalError, was; }
          if p != Writable && !unlock { return InternalError, was; }
          was := memory[slot.address];
          memory := memory[slot.address := address];
          return Done, was;
        }
        ghost var before := pos;
        pos, found, slot := Enumerate(pos);
        Skip(name, before, if found.Some? then pos - 1 else pos);
      }
      return if found == None then NotFound else found.value, was;
    }

    /** The memory after the first n hooks went into their slots, one after the other. */
    ghost function Installed(mem: map<Address, Pointer>, hooks: seq<Hook>, n: nat): map<Address, Pointer>
      requires n <= |hooks|
    {
      if n == 0 then mem
      else
        var before, f := Installed(mem, hooks, n - 1), Find(hooks[n - 1].name, 0);
        if f.Slot? then before[f.address := hooks[n - 1].address] else before
    }

    /** old_func_addr of a hook: what was in its slot just before. */
    ghost predicate SavedAt(mem: map<Address, Pointer>, hooks: seq<Hook>, olds: seq<Pointer>, i: nat)
      requires i < |olds| && i < |hooks|
    {
      var before, f := Installed(mem, hooks, i), Find(hooks[i].name, 0);
      f.Slot? && f.address in before && olds[i] == before[f.address]
    }

    ghost predicate Saved(mem: map<Address, Pointer>, hooks: seq<Hook>, olds: seq<Pointer>) {
      |olds| <= |hooks| && forall i :: 0 <= i < |olds| ==> SavedAt(mem, hooks, olds, i)
    }

    /** replace_functions; unlock[i] is what mprotect answers while hook i is installed. */
    method ReplaceFunctions(hooks: seq<Hook>, unlock: seq<bool>) returns (status: Status, olds: seq<Pointer>)
      requires Valid() && |unlock| == |hooks|
      modifies this
      ensures Valid()
      ensures status == Done <==> forall i :: 0 <= i < |hooks| ==> Replaceable(hooks[i].name, unlock[i])
      ensures status == Done ==>
                memory == Installed(old(memory), hooks, |hooks|) && |olds| == |hooks| && Saved(old(memory), hooks, olds)
      ensures status != Done ==> memory == old(memory)
    {
      status, olds := Done, [];
      var i := 0;
      while i < |hooks|
        invariant 0 <= i == |olds| <= |hooks| && Valid() && status == Done
        invariant memory == Installed(old(memory), hooks, i) && Saved(old(memory), hooks, olds)
        invariant forall j :: 0 <= j < i ==> Replaceable(hooks[j].name, unlock[j])
      {
        var was;
        status, was := Replace(hooks[i].name, hooks[i].address, unlock[i]);
        if status != Done {
          RollBack(hooks, olds, old(memory), unlock);
          return;
        }
        ghost var saved := olds;
        olds := olds + [was];
        assert forall j :: 0 <= j < i && SavedAt(old(memory), hooks, saved, j) ==>
                             SavedAt(old(memory), hooks, olds, j);
        i := i + 1;
      }
    }

    /** The inner loop of replace_functions; a restore is assumed not to meet an mprotect error. */
    method RollBack(hooks: seq<Hook>, olds: seq<Pointer>, ghost mem: map<Address, Pointer>, ghost unlock: seq<bool>)
      requires Valid() && |unlock| == |hooks| && Saved(mem, hooks, olds) && memory == Installed(mem, hooks, |olds|)
      requires forall j :: 0 <= j < |olds| ==> Replaceable(hooks[j].name, unlock[j])
      modifies this
      ensures Valid() && memory == mem
    {
      var i := |olds|;
      while i > 0
        invariant 0 <= i <= |olds| && Valid() && memory == Installed(mem, hooks, i)
      {
        i := i - 1;
        assert Replaceable(hooks[i].name, unlock[i]) && SavedAt(mem, hooks, olds, i);
        var restored, _ := Replace(hooks[i].name, olds[i], true);
        ghost var before, slot := Installed(mem, hooks, i), Find(hooks[i].name, 0).address;
        assert before[slot := hooks[i].address][slot := before[slot]] == before;
      }
    }

    /** Whether a hook is the last one for its slot. */
    ghost predicate LastFor(hooks: seq<Hook>, i: nat, n: nat)
      requires i < n <= |hooks|
    {
      forall j :: i < j < n ==> Find(hooks[j].name, 0) != Find(hooks[i].name, 0)
    }

    /** When all hooks are in, each slot holds the last hook meant for it, even if names repeat. */
    lemma {:induction false} LastHookStays(mem: map<Address, Pointer>, hooks: seq<Hook>, i: nat, n: nat)
      requires i < n <= |hooks| && Find(hooks[i].name, 0).Slot? && LastFor(hooks, i, n)
      ensures var slot := Find(hooks[i].name, 0).address;
        slot in Installed(mem, hooks, n) && Installed(mem, hooks, n)[slot] == hooks[i].address
      decreases n
    {
      if i < n - 1 {
        LastHookStays(mem, hooks, i, n - 1);
      }
    }

    /** Every other slot is as it was. */
    lemma {:induction false} OthersStay(mem: map<Address, Pointer>, hooks: seq<Hook>, a: Address, n: nat)
      requires n <= |hooks| && a in mem && forall i :: 0 <= i < n ==> Find(hooks[i].name, 0) != Slot(a)
      ensures a in Installed(mem, hooks, n) && Installed(mem, hooks, n)[a] == mem[a]
      decreases n
    {
      if n > 0 {
        OthersStay(mem, hooks, a, n - 1);
      }
    }

    /** The saved address is the original function, or the hook that was put into the same slot before. */
    lemma SavedIsPrevious(mem: map<Address, Pointer>, hooks: seq<Hook>, olds: seq<Pointer>, i: nat)
      requires i < |olds| && i < |hooks| && SavedAt(mem, hooks, olds, i) && Find(hooks[i].name, 0).address in mem
      ensures (forall j :: 0 <= j < i ==> Find(hooks[j].name, 0) != Find(hooks[i].name, 0)) ==>
                olds[i] == mem[Find(hooks[i].name, 0).address]
      ensures forall j :: 0 <= j < i && Find(hooks[j].name, 0) == Find(hooks[i].name, 0) && LastFor(hooks, j, i) ==>
                olds[i] == hooks[j].address
    {
      var slot := Find(hooks[i].name, 0).address;
      if forall j :: 0 <= j < i ==> Find(hooks[j].name, 0) != Find(hooks[i].name, 0) {
        OthersStay(mem, hooks, slot, i);
      }
      forall j | 0 <= j < i && Find(hooks[j].name, 0) == Find(hooks[i].name, 0) && LastFor(hooks, j, i)
        ensures olds[i] == hooks[j].address
      {
        LastHookStays(mem, hooks, j, i);
      }
    }
  }
}
