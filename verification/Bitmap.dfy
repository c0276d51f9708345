/** klib/byte_index_list.c: a bitmap with a search hint, and the runs it allows. */
module Bitmap {
  const BYTE_BITS := 8

  /** A byte of the table as the set of its one bits. */
  type Byte = set<nat>

  const FULL_BYTE: Byte := {0, 1, 2, 3, 4, 5, 6, 7}

  ghost predicate BitSet(bytes: seq<Byte>, x: nat) {
    x / BYTE_BITS < |bytes| && x % BYTE_BITS in bytes[x / BYTE_BITS]
  }

  /** The slots that a table marks as taken. */
  ghost function TakenSlots(bytes: seq<Byte>): set<nat> {
    set x: nat | x < BYTE_BITS * |bytes| && BitSet(bytes, x)
  }

  lemma FullPrefix(bytes: seq<Byte>, k: nat)
    requires k <= |bytes| && forall i :: 0 <= i < k ==> bytes[i] == FULL_BYTE
    ensures forall x: nat :: x < BYTE_BITS * k ==> BitSet(bytes, x)
  {
  }

  lemma BitAdded(bytes: seq<Byte>, x: nat)
    requires x < BYTE_BITS * |bytes|
    ensures var i := x / BYTE_BITS;
            TakenSlots(bytes[i := bytes[i] + {x % BYTE_BITS}]) == TakenSlots(bytes) + {x}
  {
    var i := x / BYTE_BITS;
    var after := bytes[i := bytes[i] + {x % BYTE_BITS}];
    forall y: nat ensures BitSet(after, y) <==> BitSet(bytes, y) || y == x {
      SameBit(x, y);
    }
  }

  lemma BitRemoved(bytes: seq<Byte>, x: nat)
    requires x < BYTE_BITS * |bytes|
    ensures var i := x / BYTE_BITS;
            TakenSlots(bytes[i := bytes[i] - {x % BYTE_BITS}]) == TakenSlots(bytes) - {x}
  {
    var i := x / BYTE_BITS;
    var after := bytes[i := bytes[i] - {x % BYTE_BITS}];
    forall y: nat ensures BitSet(after, y) <==> BitSet(bytes, y) && y != x {
      SameBit(x, y);
    }
  }

  lemma SameBit(x: nat, y: nat)
    ensures x / BYTE_BITS == y / BYTE_BITS && x % BYTE_BITS == y % BYTE_BITS <==> x == y
  {
  }

  // ---------------------------------------------------------------- runs

  datatype Event =
    | Mark(slot: nat)     // byte_index_set_tbl
    | Release(slot: nat)  // byte_index_release_tbl
    | Grant(slot: nat)    // byte_index_get_free_slot

  /** The specification: how an event takes one set of taken slots to the next. */
  predicate Allowed(taken: set<nat>, slots: nat, e: Event) {
    && e.slot < slots
    && (e.Grant? ==> e.slot !in taken && forall y: nat :: y < e.slot ==> y in taken)
  }

  function After(taken: set<nat>, e: Event): set<nat> {
    if e.Release? then taken - {e.slot} else taken + {e.slot}
  }

  ghost predicate IsRun(taken: set<nat>, slots: nat, run: seq<Event>)
    decreases |run|
  {
    run == [] || (Allowed(taken, slots, run[0]) && IsRun(After(taken, run[0]), slots, run[1..]))
  }

  /** A taken slot stays out of reach: if some later event grants it, an event before that one
      released it. */
  lemma {:induction false} GrantNeedsRelease(taken: set<nat>, slots: nat, run: seq<Event>, x: nat, j: nat)
    requires IsRun(taken, slots, run) && x in taken
    requires j < |run| && run[j] == Grant(x)
    ensures exists k :: 0 <= k < j && run[k] == Release(x)
    decreases |run|
  {
    if run[0] != Release(x) {
      assert run[1..][j - 1] == run[j];
      GrantNeedsRelease(After(taken, run[0]), slots, run[1..], x, j - 1);
      var k :| 0 <= k < j - 1 && run[1..][k] == Release(x);
      assert run[k + 1] == Release(x);
    }
  }

  /** Between any two events that take the same slot, the second a grant, lies its release. */
  lemma {:induction false} TakenOnce(taken: set<nat>, slots: nat, run: seq<Event>, i: nat, j: nat)
    requires IsRun(taken, slots, run) && i < j < |run|
    requires !run[i].Release? && run[j] == Grant(run[i].slot)
    ensures exists k :: i < k < j && run[k] == Release(run[i].slot)
    decreases |run|
  {
    var x := run[i].slot;
    if i == 0 {
      assert run[1..][j - 1] == run[j];
      GrantNeedsRelease(After(taken, run[0]), slots, run[1..], x, j - 1);
      var k :| 0 <= k < j - 1 && run[1..][k] == Release(x);
      assert run[k + 1] == Release(x);
    } else {
      assert run[1..][j - 1] == run[j] && run[1..][i - 1] == run[i];
      TakenOnce(After(taken, run[0]), slots, run[1..], i - 1, j - 1);
      var k :| i - 1 < k < j - 1 && run[1..][k] == Release(x);
      assert run[k + 1] == Release(x);
    }
  }

  class ByteIndexList {
    const bytes: array<Byte>

    /** The byte `free_ptr` points at. */
    var freePtr: nat

    /** The one bits of the memory behind the table, by the index that reaches them: no call checks
        its index. */
    var behind: set<nat>

    ghost predicate Valid()
      reads this, bytes
    {
      && (forall i :: 0 <= i < bytes.Length ==> bytes[i] <= FULL_BYTE)
      && (forall x :: x in behind ==> x >= Slots())
      && freePtr <= bytes.Length
      && (bytes.Length > 0 ==> freePtr < bytes.Length)
      && forall i :: 0 <= i < freePtr ==> bytes[i] == FULL_BYTE
    }

    ghost function Taken(): set<nat>
      reads bytes
    {
      TakenSlots(bytes[..])
    }

    function Slots(): nat {
      BYTE_BITS * bytes.Length
    }

    /** `init_byte_index_list` over a zeroed table, wherever it lies. */
    constructor (size: nat, behind: set<nat>)
      requires forall x :: x in behind ==> x >= BYTE_BITS * size
      ensures Valid() && fresh(bytes) && bytes.Length == size && Taken() == {} && this.behind == behind
    {
      bytes := new Byte[size](_ => {});
      freePtr := 0;
      this.behind := behind;
    }

    /** `byte_index_set_tbl`. */
    method Set(index: nat)
      requires Valid()
      modifies this`behind, bytes
      ensures Valid()
      ensures index < Slots() ==>
                && Allowed(old(Taken()), Slots(), Mark(index))
                && Taken() == After(old(Taken()), Mark(index)) && behind == old(behind)
      ensures index >= Slots() ==> Taken() == old(Taken()) && behind == old(behind) + {index}
    {
      if index >= Slots() {
        behind := behind + {index};
        return;
      }
      BitAdded(bytes[..], index);
      ghost var before := bytes[..];
      var tblIndex, byteIndex := index / BYTE_BITS, index % BYTE_BITS;
      bytes[tblIndex] := bytes[tblIndex] + {byteIndex};
      assert bytes[..] == before[tblIndex := before[tblIndex] + {byteIndex}];
    }

    /** `byte_index_release_tbl`. */
    method ReleaseSlot(index: nat)
      requires Valid()
      modifies this, bytes
      ensures Valid()
      ensures index < Slots() ==>
                && Allowed(old(Taken()), Slots(), Release(index))
                && Taken() == After(old(Taken()), Release(index)) && behind == old(behind)
      ensures index >= Slots() ==> Taken() == old(Taken()) && behind == old(behind) - {index}
    {
      if index >= Slots() {
        behind := behind - {index};
        return;
      }
      BitRemoved(bytes[..], index);
      ghost var before := bytes[..];
      var tblIndex, byteIndex := index / BYTE_BITS, index % BYTE_BITS;
      if freePtr > tblIndex {
        freePtr := tblIndex;
      }
      bytes[tblIndex] := bytes[tblIndex] - {byteIndex};
      assert bytes[..] == before[tblIndex := before[tblIndex] - {byteIndex}];
    }

    /** `byte_index_check_tbl`. */
    method Check(index: nat) returns (taken: bool)
      requires Valid()
      ensures taken <==> index in Taken() + behind
    {
      if index >= Slots() {
        return index in behind;
      }
      taken := index % BYTE_BITS in bytes[index / BYTE_BITS];
    }

    /** `update_free_ptr`: the hint moves to the first byte with a clear bit, or the kernel halts. */
    method UpdateFreePtr() returns (halted: bool)
      requires Valid()
      modifies this`freePtr
      ensures forall i :: 0 <= i < freePtr <= bytes.Length ==> bytes[i] == FULL_BYTE
      ensures halted <==> freePtr == bytes.Length
      ensures !halted ==> freePtr < bytes.Length && bytes[freePtr] != FULL_BYTE
    {
      while freePtr < bytes.Length
        invariant freePtr <= bytes.Length && forall i :: 0 <= i < freePtr ==> bytes[i] == FULL_BYTE
      {
        if bytes[freePtr] != FULL_BYTE {
          return false;
        }
        freePtr := freePtr + 1;
      }
      return true;
    }

    /** `byte_index_get_free_slot`: it grants the least clear bit of the whole table, although it
        looks from the hint onwards only, and halts exactly when every bit is set. With a table of no
        bytes it reads the byte behind it instead, and unless that is full grants and marks a bit
        there. */
    method GetFreeSlot() returns (slot: nat, halted: bool)
      requires Valid()
      modifies this, bytes
      ensures bytes.Length > 0 ==> (halted <==> forall x: nat :: x < Slots() ==> x in old(Taken()))
      ensures bytes.Length > 0 && !halted ==> Valid() && Allowed(old(Taken()), Slots(), Grant(slot))
      ensures bytes.Length > 0 && !halted ==> Taken() == After(old(Taken()), Grant(slot)) && behind == old(behind)
      ensures bytes.Length == 0 ==> Valid() && (halted <==> FULL_BYTE <= old(behind))
      ensures bytes.Length == 0 && !halted ==>
                && slot < BYTE_BITS && slot !in old(behind) && (forall y: nat :: y < slot ==> y in old(behind))
                && behind == old(behind) + {slot}
    {
      if bytes.Length == 0 {
        var b: Byte := set i | 0 <= i < BYTE_BITS && i in behind;
        slot := LeastClear(b);
        forall y: nat | y < slot ensures y in behind { assert y in b; }
        if slot == BYTE_BITS {
          return 0, true;
        }
        Set(slot);
        return slot, false;
      }
      halted := false;
      if bytes[freePtr] == FULL_BYTE {
        halted := UpdateFreePtr();
      }
      FullPrefix(bytes[..], freePtr);
      if halted {
        return 0, true;
      }
      var byteIndex := LeastClear(bytes[freePtr]);
      slot := freePtr * BYTE_BITS + byteIndex;
      assert slot / BYTE_BITS == freePtr && slot % BYTE_BITS == byteIndex;
      assert !BitSet(bytes[..], slot);
      forall y: nat | y < slot ensures BitSet(bytes[..], y) {
        if y >= BYTE_BITS * freePtr { assert y / BYTE_BITS == freePtr && y % BYTE_BITS < byteIndex; }
      }
      Set(slot);
    }
  }

  /** The scan of one byte: its least clear bit, 8 exactly when there is none. */
  method LeastClear(b: Byte) returns (i: nat)
    requires b <= FULL_BYTE
    ensures i <= BYTE_BITS && (i == BYTE_BITS <==> b == FULL_BYTE)
    ensures i !in b && forall k: nat :: k < i ==> k in b
  {
    i := 0;
    while i < BYTE_BITS && i in b
      invariant i <= BYTE_BITS && forall k: nat :: k < i ==> k in b
    {
      i := i + 1;
    }
  }
}
