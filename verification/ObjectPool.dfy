/** klib/shared_pool.c used by one caller at a time: set_next_index and shared_pool_free_entry
    as they run when no compare-and-swap is disturbed. */
module ObjectPool {
  import opened SharedPool

  const MAX_INT: int := 0xFFFF_FFFF

  function SlotAddr(buf: int, typeSize: nat, x: nat): int {
    buf + x * typeSize
  }

  /** shared_pool_get_index inverts shared_pool_get_next. */
  lemma SlotIndex(buf: int, typeSize: nat, x: nat)
    requires typeSize > 0
    ensures (SlotAddr(buf, typeSize, x) - buf) / typeSize == x
  {
    var q, r := (x * typeSize) / typeSize, (x * typeSize) % typeSize;
    assert x * typeSize == q * typeSize + r;
    if q != x {
      assert r == (x - q) * typeSize;
      if q < x { MulGrows(x - q, typeSize); } else { MulGrows(q - x, typeSize); }
    }
  }

  lemma MulGrows(k: nat, t: nat)
    requires k >= 1
    ensures k * t >= t
  {
  }

  lemma SlotsDistinct(buf: int, typeSize: nat, x: nat, y: nat)
    requires typeSize > 0 && SlotAddr(buf, typeSize, x) == SlotAddr(buf, typeSize, y)
    ensures x == y
  {
    SlotIndex(buf, typeSize, x);
    SlotIndex(buf, typeSize, y);
  }

  /** The slots the words of a pool of `max` objects mark as taken. */
  ghost function ClaimedSlots(words: seq<Word>, max: nat): set<nat> {
    set x: nat | x < max && BitSet(words, x)
  }

  ghost predicate WordsOk(words: seq<Word>, max: nat) {
    && |words| == max / WORD_BITS + 1
    && (forall i :: 0 <= i < |words| ==> words[i] <= FullWord)
    && (forall x: nat :: BitSet(words, x) ==> x < max)
  }

  class ObjectPool {
    const buf: int
    const typeSize: nat
    const maxObj: nat
    const freeList: array<Word>

    ghost function Claimed(): set<nat>
      reads freeList
    {
      ClaimedSlots(freeList[..], maxObj)
    }

    ghost predicate Valid()
      reads freeList
    {
      buf > 0 && typeSize > 0 && maxObj < 0xFFFF_FFFF && WordsOk(freeList[..], maxObj)
    }

    /** `shared_pool_init`, given the buffer it allocates. */
    constructor (buffer: int, max: nat, size: nat)
      requires buffer > 0 && size > 0 && max < 0xFFFF_FFFF
      ensures Valid() && Claimed() == {} && buf == buffer && maxObj == max && typeSize == size && fresh(freeList)
    {
      buf, maxObj, typeSize := buffer, max, size;
      freeList := new Word[max / WORD_BITS + 1](_ => {});
    }

    /** `set_next_index`: the least free index, or MAX_INT exactly when the pool is full. */
    method SetNextIndex() returns (index: int)
      requires Valid()
      modifies freeList
      ensures Valid()
      ensures index == 0xFFFF_FFFF <==> forall x: nat :: x < maxObj ==> x in old(Claimed())
      ensures index == 0xFFFF_FFFF ==> Claimed() == old(Claimed())
      ensures index != 0xFFFF_FFFF ==> 0 <= index < maxObj && index !in old(Claimed())
      ensures index != 0xFFFF_FFFF ==> Claimed() == old(Claimed()) + {index}
      ensures index != 0xFFFF_FFFF ==> forall y: nat :: y < index ==> y in old(Claimed())
    {
      ghost var words := freeList[..];
      var freeListSize := maxObj / WORD_BITS + 1;
      var found := 0;
      for i := 0 to freeListSize
        invariant found == WORD_BITS * i && freeList[..] == words
        invariant forall y: nat :: y < found ==> BitSet(words, y)
      {
        var freeMask := freeList[i];
        if freeMask == FullWord {
          FullBits(words, i);
          found := found + WORD_BITS;
          continue;
        }
        for j := 0 to WORD_BITS
          invariant found == WORD_BITS * i + j && freeList[..] == words && freeMask == freeList[i]
          invariant forall y: nat :: y < found ==> BitSet(words, y)
        {
          if found >= maxObj {
            return MAX_INT;
          }
          assert found / WORD_BITS == i && found % WORD_BITS == j;
          if j in freeMask {
            assert BitSet(words, found);
            found := found + 1;
            continue;
          }
          if freeList[i] == freeMask {
            freeList[i] := freeMask + {j};
            BitAdded(words, maxObj, i, j);
            assert found !in old(Claimed());
            return j + i * WORD_BITS;
          }
        }
      }
      return MAX_INT;
    }

    /** `shared_pool_get_next`: 0 for NULL. */
    method GetNext() returns (entry: int)
      requires Valid()
      modifies freeList
      ensures Valid()
      ensures entry == 0 <==> forall x: nat :: x < maxObj ==> x in old(Claimed())
      ensures entry == 0 ==> Claimed() == old(Claimed())
      ensures entry != 0 ==> exists x: nat :: x < maxObj && x !in old(Claimed()) &&
                               entry == SlotAddr(buf, typeSize, x) && Claimed() == old(Claimed()) + {x}
    {
      var index := SetNextIndex();
      if index == MAX_INT {
        return 0;
      }
      assert index < maxObj;
      entry := SlotAddr(buf, typeSize, index);
    }

    /** `shared_pool_free_entry` by the owner of the slot. */
    method FreeEntry(entry: int, ghost x: nat) returns (ok: bool)
      requires Valid() && x in Claimed() && entry == SlotAddr(buf, typeSize, x)
      modifies freeList
      ensures Valid() && ok && Claimed() == old(Claimed()) - {x}
    {
      SlotIndex(buf, typeSize, x);
      var index := (entry - buf) / typeSize;
      var i := index / WORD_BITS;
      var mask := freeList[i];
      BitRemoved(freeList[..], maxObj, x);
      ok := freeList[i] == mask;
      if ok {
        freeList[i] := mask - {index % WORD_BITS};
      }
    }
  }

  lemma FullBits(words: seq<Word>, i: nat)
    requires i < |words| && words[i] == FullWord
    ensures forall y: nat :: WORD_BITS * i <= y < WORD_BITS * i + WORD_BITS ==> BitSet(words, y)
  {
  }

  lemma BitAdded(words: seq<Word>, max: nat, i: nat, j: nat)
    requires WordsOk(words, max) && i < |words| && j < WORD_BITS && i * WORD_BITS + j < max
    ensures WordsOk(words[i := words[i] + {j}], max)
    ensures ClaimedSlots(words[i := words[i] + {j}], max) == ClaimedSlots(words, max) + {i * WORD_BITS + j}
  {
    var after := words[i := words[i] + {j}];
    forall x: nat ensures BitSet(after, x) <==> BitSet(words, x) || x == i * WORD_BITS + j {
      assert x == i * WORD_BITS + j <==> x / WORD_BITS == i && x % WORD_BITS == j;
    }
  }

  lemma BitRemoved(words: seq<Word>, max: nat, x: nat)
    requires WordsOk(words, max) && x in ClaimedSlots(words, max)
    ensures var i := x / WORD_BITS;
            && i < |words|
            && WordsOk(words[i := words[i] - {x % WORD_BITS}], max)
            && ClaimedSlots(words[i := words[i] - {x % WORD_BITS}], max) == ClaimedSlots(words, max) - {x}
  {
    var i := x / WORD_BITS;
    var after := words[i := words[i] - {x % WORD_BITS}];
    forall y: nat ensures BitSet(after, y) <==> BitSet(words, y) && y != x {
      assert y == x <==> y / WORD_BITS == i && y % WORD_BITS == x % WORD_BITS;
    }
  }
}
