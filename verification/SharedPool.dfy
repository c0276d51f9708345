/** klib/shared_pool.c: slots claimed and freed by compare-and-swap on 32-bit words. A word is
    the set of its one bits. Here every read and every compare-and-swap of any number of
    callers is a step of its own. */
module SharedPool {

  const WORD_BITS: nat := 32

  type Word = set<nat>

  const FullWord: Word := set b: nat | b < WORD_BITS

  /** Where a caller stands. `Scan`: head of the loop over words in set_next_index. `Try`: its
      inner loop, with the possibly stale `mask`. `Got`: the index is claimed and
      shared_pool_get_next is about to check it. `Freeing`, `Swap`: shared_pool_free_entry
      before its read and before its compare-and-swap. `fails` counts this call's failed swaps. */
  datatype Proc =
    | Idle
    | Scan(i: nat, found: nat, fails: nat)
    | Try(i: nat, j: nat, mask: Word, found: nat, fails: nat)
    | Got(index: nat, fails: nat)
    | Freeing(index: nat)
    | Swap(index: nat, mask: Word)
    | Halted(index: nat, fails: nat)

  /** `owned[p]` is what caller `p` has claimed and not freed. */
  datatype State = State(max: nat, words: seq<Word>, procs: seq<Proc>, owned: seq<set<nat>>)

  datatype Event = Claim | Free(index: nat) | Advance

  datatype Act = Act(proc: nat, event: Event)

  /** Only the owner of a slot frees it. */
  ghost predicate Enabled(s: State, a: Act) {
    && a.proc < |s.procs| == |s.owned|
    && match a.event
       case Claim => s.procs[a.proc] == Idle
       case Free(x) => s.procs[a.proc] == Idle && x in s.owned[a.proc] && x / WORD_BITS < |s.words|
       case Advance => WellPlaced(s.procs[a.proc], |s.words|)
  }

  /** The word a caller is about to touch exists. */
  ghost predicate WellPlaced(p: Proc, n: nat) {
    match p
    case Idle => false
    case Halted(_, _) => false
    case Try(i, j, _, _, _) => i < n && j <= WORD_BITS
    case Freeing(x) => x / WORD_BITS < n
    case Swap(x, _) => x / WORD_BITS < n
    case _ => true
  }

  ghost function At(s: State, p: nat, q: Proc): (r: State)
    requires p < |s.procs|
  {
    s.(procs := s.procs[p := q])
  }

  ghost function Do(s: State, a: Act): (r: State)
    requires Enabled(s, a)
  {
    var p := a.proc;
    match a.event
    case Claim => At(s, p, Scan(0, 0, 0))
    case Free(x) => At(s, p, Freeing(x))
    case Advance =>
      match s.procs[p]
      case Scan(i, found, fails) =>
        if i >= |s.words| then At(s, p, Idle)
        else if s.words[i] == FullWord then At(s, p, Scan(i + 1, found + WORD_BITS, fails))
        else At(s, p, Try(i, 0, s.words[i], found, fails))
      case Try(i, j, mask, found, fails) =>
        if j == WORD_BITS then At(s, p, Scan(i + 1, found, fails))
        else if found >= s.max then At(s, p, Idle)
        else if j in mask then At(s, p, Try(i, j + 1, mask, found + 1, fails))
        else if s.words[i] == mask then
          var x := i * WORD_BITS + j;
          At(s, p, Got(x, fails)).(words := s.words[i := mask + {j}], owned := s.owned[p := s.owned[p] + {x}])
        else At(s, p, Try(i, j + 1, s.words[i], found, fails + 1))
      case Got(x, fails) => At(s, p, if x < s.max then Idle else Halted(x, fails))
      case Freeing(x) => At(s, p, Swap(x, s.words[x / WORD_BITS]))
      case Swap(x, mask) =>
        var i := x / WORD_BITS;
        if s.words[i] == mask then
          At(s, p, Idle).(words := s.words[i := mask - {x % WORD_BITS}], owned := s.owned[p := s.owned[p] - {x}])
        else At(s, p, Idle)
      case _ => s
  }

  // ---------------------------------------------------------------- the invariant

  ghost predicate BitSet(words: seq<Word>, x: nat) {
    x / WORD_BITS < |words| && x % WORD_BITS in words[x / WORD_BITS]
  }

  ghost predicate Owned(owned: seq<set<nat>>, x: nat) {
    exists p :: 0 <= p < |owned| && x in owned[p]
  }

  /** The set bits are exactly the owned slots, and no slot has two owners. */
  ghost predicate Agree(words: seq<Word>, owned: seq<set<nat>>) {
    && (forall i :: 0 <= i < |words| ==> words[i] <= FullWord)
    && (forall x: nat :: BitSet(words, x) <==> Owned(owned, x))
    && (forall p, q, x :: 0 <= p < |owned| && 0 <= q < |owned| && x in owned[p] && x in owned[q] ==> p == q)
  }

  /** `found` lags the position by exactly the failed swaps. */
  ghost predicate ProcOk(q: Proc, own: set<nat>, max: nat, n: nat) {
    match q
    case Idle => true
    case Scan(i, found, fails) => i <= n && found + fails == WORD_BITS * i
    case Try(i, j, _, found, fails) => i < n && j <= WORD_BITS && found + fails == WORD_BITS * i + j
    case Got(x, fails) => x in own && x < max + fails
    case Freeing(x) => x in own && x / WORD_BITS < n
    case Swap(x, _) => x in own && x / WORD_BITS < n
    case Halted(x, fails) => x in own && max <= x < max + fails
  }

  ghost predicate Inv(s: State) {
    && |s.words| == s.max / WORD_BITS + 1
    && |s.procs| == |s.owned|
    && Agree(s.words, s.owned)
    && forall p :: 0 <= p < |s.procs| ==> ProcOk(s.procs[p], s.owned[p], s.max, |s.words|)
  }

  // ---------------------------------------------------------------- every step keeps it

  lemma ClaimKeepsAgree(words: seq<Word>, owned: seq<set<nat>>, p: nat, i: nat, j: nat)
    requires Agree(words, owned) && p < |owned| && i < |words| && j < WORD_BITS && j !in words[i]
    ensures Agree(words[i := words[i] + {j}], owned[p := owned[p] + {i * WORD_BITS + j}])
    ensures !Owned(owned, i * WORD_BITS + j)
  {
    var x := i * WORD_BITS + j;
    var words', owned' := words[i := words[i] + {j}], owned[p := owned[p] + {x}];
    assert x / WORD_BITS == i && x % WORD_BITS == j;
    assert !BitSet(words, x);
    forall y: nat ensures BitSet(words', y) <==> Owned(owned', y) {
      assert y == x <==> y / WORD_BITS == i && y % WORD_BITS == j;
      assert BitSet(words', y) <==> BitSet(words, y) || y == x;
      OwnedUpdate(owned, p, owned[p] + {x}, y);
    }
  }

  lemma OwnedUpdate(owned: seq<set<nat>>, p: nat, own: set<nat>, y: nat)
    requires p < |owned|
    ensures y in own ==> Owned(owned[p := own], y)
    ensures y !in own && y !in owned[p] ==> (Owned(owned[p := own], y) <==> Owned(owned, y))
    ensures y in owned[p] ==> Owned(owned, y)
  {
    var owned' := owned[p := own];
    if y in own { assert y in owned'[p]; }
    if y !in own && y !in owned[p] {
      if Owned(owned, y) {
        var q :| 0 <= q < |owned| && y in owned[q];
        assert y in owned'[q];
      }
      if Owned(owned', y) {
        var q :| 0 <= q < |owned'| && y in owned'[q];
        assert y in owned[q];
      }
    }
  }

  lemma FreeKeepsAgree(words: seq<Word>, owned: seq<set<nat>>, p: nat, x: nat)
    requires Agree(words, owned) && p < |owned| && x in owned[p] && x / WORD_BITS < |words|
    ensures var i := x / WORD_BITS;
            Agree(words[i := words[i] - {x % WORD_BITS}], owned[p := owned[p] - {x}])
  {
    var i := x / WORD_BITS;
    var words', owned' := words[i := words[i] - {x % WORD_BITS}], owned[p := owned[p] - {x}];
    forall y: nat ensures BitSet(words', y) <==> Owned(owned', y) {
      assert y == x <==> y / WORD_BITS == i && y % WORD_BITS == x % WORD_BITS;
      assert BitSet(words', y) <==> BitSet(words, y) && y != x;
      if y == x {
        assert !Owned(owned', x);
      } else {
        OwnedUpdate(owned, p, owned[p] - {x}, y);
      }
    }
  }

  lemma ClaimStep(s: State, p: nat)
    requires Inv(s) && p < |s.procs| && s.procs[p].Try? && Enabled(s, Act(p, Advance))
    ensures Inv(Do(s, Act(p, Advance)))
  {
    var Try(i, j, mask, found, fails) := s.procs[p];
    if j < WORD_BITS && found < s.max && j !in mask && s.words[i] == mask {
      ClaimKeepsAgree(s.words, s.owned, p, i, j);
    }
  }

  lemma FreeStep(s: State, p: nat)
    requires Inv(s) && p < |s.procs| && (s.procs[p].Freeing? || s.procs[p].Swap?) && Enabled(s, Act(p, Advance))
    ensures Inv(Do(s, Act(p, Advance)))
  {
    if s.procs[p].Swap? {
      FreeKeepsAgree(s.words, s.owned, p, s.procs[p].index);
    }
  }

  lemma StepInv(s: State, a: Act)
    requires Inv(s) && Enabled(s, a)
    ensures Inv(Do(s, a))
  {
    if a.event == Advance {
      match s.procs[a.proc]
      case Try(_, _, _, _, _) => ClaimStep(s, a.proc);
      case Freeing(_) => FreeStep(s, a.proc);
      case Swap(_, _) => FreeStep(s, a.proc);
      case _ =>
    } else if a.event.Free? {
      var x := a.event.index;
      assert Owned(s.owned, x);
    }
  }

  // ---------------------------------------------------------------- runs

  ghost predicate Runs(s: State, acts: seq<Act>)
    decreases acts
  {
    acts == [] || (Enabled(s, acts[0]) && Runs(Do(s, acts[0]), acts[1..]))
  }

  ghost function Final(s: State, acts: seq<Act>): (r: State)
    requires Runs(s, acts)
    decreases acts
  {
    if acts == [] then s else Final(Do(s, acts[0]), acts[1..])
  }

  /** What shared_pool_init leaves, for `n` callers. */
  ghost function Init(max: nat, n: nat): (s: State)
    ensures Inv(s)
  {
    var words: seq<Word> := seq(max / WORD_BITS + 1, _ => {});
    var owned: seq<set<nat>> := seq(n, _ => {});
    State(max, words, seq(n, _ => Idle), owned)
  }

  lemma {:induction false} RunKeepsInv(s: State, acts: seq<Act>)
    requires Inv(s) && Runs(s, acts)
    ensures Inv(Final(s, acts))
    decreases acts
  {
    if acts != [] {
      StepInv(s, acts[0]);
      RunKeepsInv(Do(s, acts[0]), acts[1..]);
    }
  }

  /** In every interleaving, words that change and change back included, the set bits are
      exactly the owned slots and no slot has two owners. */
  lemma RunOwnsExactly(max: nat, n: nat, acts: seq<Act>)
    requires Runs(Init(max, n), acts)
    ensures Agree(Final(Init(max, n), acts).words, Final(Init(max, n), acts).owned)
  {
    RunKeepsInv(Init(max, n), acts);
  }

  /** A claimed index stays below `max_obj_num` plus this call's failed swaps; in particular a
      call whose swap never failed passes the check in shared_pool_get_next. */
  lemma RunClaimBound(max: nat, n: nat, acts: seq<Act>, p: nat)
    requires Runs(Init(max, n), acts) && p < |Final(Init(max, n), acts).procs|
    ensures var q := Final(Init(max, n), acts).procs[p];
            && (q.Got? ==> q.index < max + q.fails)
            && (q.Halted? ==> max <= q.index < max + q.fails)
            && (q.Got? && q.fails == 0 ==> q.index < max)
  {
    RunKeepsInv(Init(max, n), acts);
    MaxKept(Init(max, n), acts);
  }

  lemma {:induction false} MaxKept(s: State, acts: seq<Act>)
    requires Runs(s, acts)
    ensures Final(s, acts).max == s.max
    decreases acts
  {
    if acts != [] { MaxKept(Do(s, acts[0]), acts[1..]); }
  }

  // ---------------------------------------------------------------- what a free does

  ghost predicate Without(acts: seq<Act>, p: nat) {
    forall k :: 0 <= k < |acts| ==> acts[k].proc != p
  }

  /** The steps of others touch neither where a caller stands nor what it owns. */
  lemma {:induction false} OthersLeaveAlone(s: State, acts: seq<Act>, p: nat)
    requires Runs(s, acts) && Without(acts, p) && p < |s.procs| == |s.owned|
    ensures var t := Final(s, acts);
            && |t.procs| == |t.owned| == |s.procs| && |t.words| == |s.words|
            && t.procs[p] == s.procs[p] && t.owned[p] == s.owned[p]
    decreases acts
  {
    if acts != [] {
      assert Without(acts[1..], p);
      OthersLeaveAlone(Do(s, acts[0]), acts[1..], p);
    }
  }

  /** Slot `x` of caller `p` is free in `t`, and all else is as in `s`. */
  ghost predicate Freed(s: State, t: State, p: nat, x: nat)
    requires p < |s.owned|
  {
    && t.max == s.max && t.procs == s.procs && t.owned == s.owned[p := s.owned[p] - {x}]
    && |t.words| == |s.words| && forall y: nat :: BitSet(t.words, y) <==> BitSet(s.words, y) && y != x
  }

  lemma BitCleared(words: seq<Word>, x: nat, y: nat)
    requires x / WORD_BITS < |words|
    ensures var i := x / WORD_BITS;
            BitSet(words[i := words[i] - {x % WORD_BITS}], y) <==> BitSet(words, y) && y != x
  {
    assert y == x <==> y / WORD_BITS == x / WORD_BITS && y % WORD_BITS == x % WORD_BITS;
  }

  /** `shared_pool_free_entry` among any steps of others: `mid1` run between its call and its read, which
      finds `read`, and `mid2` between the read and the compare-and-swap, in `now`. It frees the slot if
      and only if the word is then what it was at the read, whatever happened in between; otherwise
      nothing changes and the slot stays taken. */
  lemma FreeExactly(s: State, p: nat, x: nat, mid1: seq<Act>, read: State, mid2: seq<Act>, now: State)
    returns (t: State)
    requires Inv(s) && p < |s.procs| && s.procs[p] == Idle && x in s.owned[p] && Enabled(s, Act(p, Free(x)))
    requires Without(mid1, p) && Runs(Do(s, Act(p, Free(x))), mid1) && read == Final(Do(s, Act(p, Free(x))), mid1)
    requires Enabled(read, Act(p, Advance)) && Without(mid2, p)
    requires Runs(Do(read, Act(p, Advance)), mid2) && now == Final(Do(read, Act(p, Advance)), mid2)
    ensures p < |now.procs| == |now.owned| && x in now.owned[p]
    ensures Enabled(now, Act(p, Advance)) && t == Do(now, Act(p, Advance)) && p < |t.procs| && t.procs[p] == Idle
    ensures x / WORD_BITS < |read.words| == |now.words|
    ensures if now.words[x / WORD_BITS] == read.words[x / WORD_BITS] then Freed(At(now, p, Idle), t, p, x)
            else t == At(now, p, Idle)
  {
    OthersLeaveAlone(Do(s, Act(p, Free(x))), mid1, p);
    OthersLeaveAlone(Do(read, Act(p, Advance)), mid2, p);
    t := Do(now, Act(p, Advance));
    if now.words[x / WORD_BITS] == read.words[x / WORD_BITS] {
      forall y: nat ensures BitSet(t.words, y) <==> BitSet(now.words, y) && y != x {
        BitCleared(now.words, x, y);
      }
    }
  }

  lemma OwnedHasWord(s: State, p: nat, x: nat)
    requires Inv(s) && p < |s.procs| && x in s.owned[p]
    ensures x / WORD_BITS < |s.words|
  {
    assert Owned(s.owned, x);
    assert BitSet(s.words, x);
  }

  /** Undisturbed, it always does. */
  lemma FreeAlone(s: State, p: nat, x: nat) returns (t: State)
    requires Inv(s) && p < |s.procs| && s.procs[p] == Idle && x in s.owned[p]
    ensures var acts := [Act(p, Free(x)), Act(p, Advance), Act(p, Advance)];
            Runs(s, acts) && t == Final(s, acts)
    ensures Freed(s, t, p, x)
  {
    OwnedHasWord(s, p, x);
    var s1 := Do(s, Act(p, Free(x)));
    var s2 := Do(s1, Act(p, Advance));
    t := Do(s2, Act(p, Advance));
    var a := Act(p, Advance);
    var none: seq<Act> := [];
    RunsAppend(s, none, Act(p, Free(x)));
    RunsAppend(s, none + [Act(p, Free(x))], a);
    RunsAppend(s, none + [Act(p, Free(x))] + [a], a);
    assert none + [Act(p, Free(x))] + [a] + [a] == [Act(p, Free(x)), a, a];
    forall y: nat ensures BitSet(t.words, y) <==> BitSet(s.words, y) && y != x {
      BitCleared(s.words, x, y);
    }
    assert t.procs == s.procs;
  }

  // ---------------------------------------------------------------- what a claim does

  ghost predicate By(acts: seq<Act>, p: nat) {
    forall k :: 0 <= k < |acts| ==> acts[k].proc == p
  }

  /** Caller `p` alone gets from `s` to `t`. */
  ghost predicate Alone(s: State, p: nat, t: State) {
    exists acts :: Runs(s, acts) && Final(s, acts) == t && By(acts, p)
  }

  lemma AloneStep(s: State, p: nat, t: State, a: Act)
    requires Alone(s, p, t) && a.proc == p && Enabled(t, a)
    ensures Alone(s, p, Do(t, a))
  {
    var acts :| Runs(s, acts) && Final(s, acts) == t && By(acts, p);
    RunsAppend(s, acts, a);
    var acts' := acts + [a];
    assert Runs(s, acts') && Final(s, acts') == Do(t, a) && By(acts', p);
  }

  /** What `shared_pool_get_next` is to do: take the least free slot, or return NULL and change nothing if
      all slots are taken. */
  ghost predicate Claimed(s: State, t: State, p: nat)
    requires p < |s.procs| == |s.owned|
  {
    if forall y: nat :: y < s.max ==> BitSet(s.words, y) then t == s
    else exists x: nat :: LeastFree(s, x) && t == AfterClaim(s, p, x, Idle)
  }

  ghost predicate LeastFree(s: State, x: nat) {
    x < s.max && x / WORD_BITS < |s.words| && !BitSet(s.words, x) && forall y: nat :: y < x ==> BitSet(s.words, y)
  }

  /** From any state, a caller that is not disturbed does just that. */
  lemma ClaimAlone(s: State, p: nat) returns (t: State)
    requires Inv(s) && p < |s.procs| && s.procs[p] == Idle
    ensures Alone(s, p, t) && Claimed(s, t, p)
  {
    var none: seq<Act> := [];
    assert Runs(s, none) && Final(s, none) == s && By(none, p);
    AloneStep(s, p, s, Act(p, Claim));
    t := ScanAlone(s, p, 0);
  }

  lemma {:induction false} ScanAlone(s: State, p: nat, i: nat) returns (t: State)
    requires Inv(s) && p < |s.procs| && s.procs[p] == Idle && i <= |s.words|
    requires forall y: nat :: y < WORD_BITS * i ==> BitSet(s.words, y)
    requires Alone(s, p, At(s, p, Scan(i, WORD_BITS * i, 0)))
    ensures Alone(s, p, t) && Claimed(s, t, p)
    decreases |s.words| - i
  {
    var u, a := At(s, p, Scan(i, WORD_BITS * i, 0)), Act(p, Advance);
    AloneStep(s, p, u, a);
    if i == |s.words| {
      t := s;
      assert At(u, p, Idle) == s;
    } else if s.words[i] == FullWord {
      forall y: nat | y < WORD_BITS * (i + 1) ensures BitSet(s.words, y) {
        if y >= WORD_BITS * i { assert y / WORD_BITS == i && y % WORD_BITS in FullWord; }
      }
      assert Do(u, a) == At(s, p, Scan(i + 1, WORD_BITS * (i + 1), 0));
      t := ScanAlone(s, p, i + 1);
    } else {
      assert Do(u, a) == At(s, p, Try(i, 0, s.words[i], WORD_BITS * i, 0));
      t := TryAlone(s, p, i, 0);
    }
  }

  lemma {:induction false} TryAlone(s: State, p: nat, i: nat, j: nat) returns (t: State)
    requires Inv(s) && p < |s.procs| && s.procs[p] == Idle && i < |s.words| && j <= WORD_BITS
    requires s.words[i] != FullWord && forall y: nat :: y < WORD_BITS * i + j ==> BitSet(s.words, y)
    requires Alone(s, p, At(s, p, Try(i, j, s.words[i], WORD_BITS * i + j, 0)))
    ensures Alone(s, p, t) && Claimed(s, t, p)
    decreases WORD_BITS - j
  {
    var x, a := WORD_BITS * i + j, Act(p, Advance);
    var u := At(s, p, Try(i, j, s.words[i], x, 0));
    NotFull(s.words, i, j);
    assert x / WORD_BITS == i && x % WORD_BITS == j;
    AloneStep(s, p, u, a);
    if x >= s.max {
      t := s;
      assert Do(u, a) == s;
    } else if j in s.words[i] {
      assert BitSet(s.words, x);
      assert Do(u, a) == At(s, p, Try(i, j + 1, s.words[i], x + 1, 0));
      t := TryAlone(s, p, i, j + 1);
    } else {
      var v := AfterClaim(s, p, x, Got(x, 0));
      assert Do(u, a) == v;
      AloneStep(s, p, v, a);
      t := AfterClaim(s, p, x, Idle);
      assert Do(v, a) == t;
      assert LeastFree(s, x);
    }
  }

  lemma NotFull(words: seq<Word>, i: nat, j: nat)
    requires i < |words| && words[i] <= FullWord && words[i] != FullWord && j <= WORD_BITS
    requires forall y: nat :: y < WORD_BITS * i + j ==> BitSet(words, y)
    ensures j < WORD_BITS
  {
    if j == WORD_BITS {
      forall b | b in FullWord ensures b in words[i] {
        var y := WORD_BITS * i + b;
        assert y / WORD_BITS == i && y % WORD_BITS == b && BitSet(words, y);
      }
    }
  }

  // ---------------------------------------------------------------- when claims stay in range

  ghost predicate Reaches(s: State, t: State) {
    exists acts :: Runs(s, acts) && Final(s, acts) == t
  }

  lemma ReachesSelf(s: State)
    ensures Reaches(s, s)
  {
    var none: seq<Act> := [];
    assert Runs(s, none) && Final(s, none) == s;
  }

  lemma {:induction false} RunsAppend(s: State, acts: seq<Act>, a: Act)
    requires Runs(s, acts) && Enabled(Final(s, acts), a)
    ensures Runs(s, acts + [a]) && Final(s, acts + [a]) == Do(Final(s, acts), a)
    decreases acts
  {
    if acts == [] {
      assert (acts + [a])[1..] == [];
    } else {
      RunsAppend(Do(s, acts[0]), acts[1..], a);
      assert (acts + [a])[1..] == acts[1..] + [a];
    }
  }

  lemma ReachesStep(s: State, t: State, a: Act)
    requires Reaches(s, t) && Enabled(t, a)
    ensures Reaches(s, Do(t, a))
  {
    var acts :| Runs(s, acts) && Final(s, acts) == t;
    RunsAppend(s, acts, a);
    assert Runs(s, acts + [a]);
  }

  /** Exactly the slots below `k` are claimed. */
  ghost predicate FilledTo(s: State, k: nat) {
    && |s.words| == s.max / WORD_BITS + 1 && |s.procs| == |s.owned|
    && forall i :: 0 <= i < |s.words| ==> s.words[i] == WordBelow(k - WORD_BITS * i)
  }

  ghost function WordBelow(k: int): Word {
    set b | b in FullWord && b < k
  }

  /** A lone caller that starts claiming gets to slot `k` with an exact count and mask. */
  lemma {:induction false} ReachScan(s0: State, s: State, p: nat, k: nat, i: nat)
    requires p < |s.procs| && s.procs[p] == Idle && Reaches(s0, s) && FilledTo(s, k)
    requires WORD_BITS * i <= k && k / WORD_BITS < |s.words|
    ensures Reaches(s0, At(s, p, Scan(i, WORD_BITS * i, 0)))
  {
    if i == 0 {
      ReachesStep(s0, s, Act(p, Claim));
    } else {
      ReachScan(s0, s, p, k, i - 1);
      var t := At(s, p, Scan(i - 1, WORD_BITS * (i - 1), 0));
      assert s.words[i - 1] == FullWord;
      ReachesStep(s0, t, Act(p, Advance));
      assert Do(t, Act(p, Advance)) == At(s, p, Scan(i, WORD_BITS * i, 0));
    }
  }

  lemma {:induction false} ReachTry(s0: State, s: State, p: nat, k: nat, j: nat)
    requires p < |s.procs| && s.procs[p] == Idle && Reaches(s0, s) && FilledTo(s, k)
    requires k < s.max && j <= k % WORD_BITS && k / WORD_BITS < |s.words|
    ensures var i := k / WORD_BITS;
            Reaches(s0, At(s, p, Try(i, j, s.words[i], WORD_BITS * i + j, 0)))
  {
    var i := k / WORD_BITS;
    assert k == WORD_BITS * i + k % WORD_BITS;
    if j == 0 {
      ReachScan(s0, s, p, k, i);
      var t := At(s, p, Scan(i, WORD_BITS * i, 0));
      assert 31 in FullWord && 31 !in s.words[i];
      ReachesStep(s0, t, Act(p, Advance));
      assert Do(t, Act(p, Advance)) == At(s, p, Try(i, 0, s.words[i], WORD_BITS * i, 0));
    } else {
      ReachTry(s0, s, p, k, j - 1);
      var t := At(s, p, Try(i, j - 1, s.words[i], WORD_BITS * i + j - 1, 0));
      assert j - 1 in s.words[i];
      ReachesStep(s0, t, Act(p, Advance));
      assert Do(t, Act(p, Advance)) == At(s, p, Try(i, j, s.words[i], WORD_BITS * i + j, 0));
    }
  }

  /** The state after caller `p` has claimed slot `k` and is past the compare-and-swap. */
  ghost function AfterClaim(s: State, p: nat, k: nat, q: Proc): (r: State)
    requires p < |s.procs| == |s.owned| && k / WORD_BITS < |s.words|
  {
    var i := k / WORD_BITS;
    At(s, p, q).(words := s.words[i := s.words[i] + {k % WORD_BITS}], owned := s.owned[p := s.owned[p] + {k}])
  }

  lemma AfterClaimFilled(s: State, p: nat, k: nat, q: Proc)
    requires FilledTo(s, k) && p < |s.procs| && k / WORD_BITS < |s.words|
    ensures FilledTo(AfterClaim(s, p, k, q), k + 1)
  {
    var i := k / WORD_BITS;
    assert k == WORD_BITS * i + k % WORD_BITS;
    assert k % WORD_BITS in FullWord;
    var r := AfterClaim(s, p, k, q);
    forall m | 0 <= m < |r.words| ensures r.words[m] == WordBelow(k + 1 - WORD_BITS * m) {
      assert s.words[m] == WordBelow(k - WORD_BITS * m);
    }
  }

  /** A caller at the right point, undisturbed, claims slot `k`. */
  lemma SwapSucceeds(s0: State, s: State, p: nat, k: nat)
    requires FilledTo(s, k) && p < |s.procs| && k < s.max && k / WORD_BITS < |s.words|
    requires var i := k / WORD_BITS;
             s.procs[p] == Try(i, k % WORD_BITS, s.words[i], k, 0) && Reaches(s0, s)
    ensures Reaches(s0, AfterClaim(s, p, k, Got(k, 0))) && Reaches(s0, AfterClaim(s, p, k, Idle))
  {
    var i := k / WORD_BITS;
    assert k == i * WORD_BITS + k % WORD_BITS;
    assert k % WORD_BITS !in s.words[i];
    ReachesStep(s0, s, Act(p, Advance));
    var t := AfterClaim(s, p, k, Got(k, 0));
    assert Do(s, Act(p, Advance)) == t;
    ReachesStep(s0, t, Act(p, Advance));
    assert Do(t, Act(p, Advance)) == AfterClaim(s, p, k, Idle);
  }

  lemma FillNext(s0: State, t: State, k: nat) returns (s: State)
    requires Reaches(s0, t) && FilledTo(t, k) && |t.procs| > 0 && t.procs[0] == Idle && k < t.max
    ensures Reaches(s0, s) && FilledTo(s, k + 1) && s.max == t.max && s.procs == t.procs
  {
    var i := k / WORD_BITS;
    assert k == WORD_BITS * i + k % WORD_BITS;
    ReachTry(s0, t, 0, k, k % WORD_BITS);
    var u := At(t, 0, Try(i, k % WORD_BITS, t.words[i], k, 0));
    SwapSucceeds(s0, u, 0, k);
    AfterClaimFilled(u, 0, k, Idle);
    s := AfterClaim(u, 0, k, Idle);
  }

  /** One caller alone can fill the pool up to slot `k`. */
  lemma {:induction false} ReachFilled(max: nat, n: nat, k: nat) returns (s: State)
    requires n > 0 && k <= max
    ensures Reaches(Init(max, n), s) && FilledTo(s, k) && s.max == max && |s.procs| == n
    ensures forall p :: 0 <= p < n ==> s.procs[p] == Idle
  {
    if k == 0 {
      s := Init(max, n);
      ReachesSelf(s);
    } else {
      var t := ReachFilled(max, n, k - 1);
      s := FillNext(Init(max, n), t, k - 1);
    }
  }

  /** Two callers contending for the last free slot make the loser claim slot `max` and halt. */
  lemma ContentionHalts(max: nat, n: nat) returns (s: State)
    requires n >= 2 && max >= 1
    ensures Reaches(Init(max, n), s) && |s.procs| == n && s.procs[0] == Halted(max, 1)
  {
    var s0, k := Init(max, n), max - 1;
    var i, j := k / WORD_BITS, k % WORD_BITS;
    assert k == WORD_BITS * i + j;
    var t := ReachFilled(max, n, k);
    ReachTry(s0, t, 0, k, j);
    var loser := Try(i, j, t.words[i], k, 0);
    var u := At(t, 0, loser);
    ReachTry(s0, u, 1, k, j);
    var v := At(u, 1, loser);
    SwapSucceeds(s0, v, 1, k);
    AfterClaimFilled(v, 1, k, Idle);
    s := LoserGoesOn(s0, AfterClaim(v, 1, k, Idle), max, t.words[i]);
  }

  lemma LoserGoesOn(s0: State, w: State, max: nat, stale: Word) returns (s: State)
    requires max >= 1 && w.max == max && FilledTo(w, max) && Reaches(s0, w) && |w.procs| > 0
    requires w.procs[0] == Try((max - 1) / WORD_BITS, (max - 1) % WORD_BITS, stale, max - 1, 0)
    requires stale == WordBelow((max - 1) % WORD_BITS)
    ensures Reaches(s0, s) && |s.procs| == |w.procs| && s.procs[0] == Halted(max, 1)
  {
    var i, j := (max - 1) / WORD_BITS, (max - 1) % WORD_BITS;
    var a := Act(0, Advance);
    assert max - 1 == WORD_BITS * i + j;
    assert j in FullWord && j in w.words[i] && j !in stale;
    ReachesStep(s0, w, a);
    var x := At(w, 0, Try(i, j + 1, w.words[i], max - 1, 1));
    assert Do(w, a) == x;
    if j + 1 < WORD_BITS {
      s := LoserClaims(s0, x, max);
    } else {
      ReachesStep(s0, x, a);
      var y := At(w, 0, Scan(i + 1, max - 1, 1));
      assert Do(x, a) == y;
      assert 0 in FullWord && 0 !in y.words[i + 1];
      ReachesStep(s0, y, a);
      var z := At(w, 0, Try(i + 1, 0, y.words[i + 1], max - 1, 1));
      assert Do(y, a) == z;
      s := LoserClaims(s0, z, max);
    }
  }

  lemma LoserClaims(s0: State, x: State, max: nat) returns (s: State)
    requires max >= 1 && x.max == max && FilledTo(x, max) && Reaches(s0, x) && |x.procs| > 0
    requires max / WORD_BITS < |x.words|
    requires x.procs[0] == Try(max / WORD_BITS, max % WORD_BITS, x.words[max / WORD_BITS], max - 1, 1)
    ensures Reaches(s0, s) && |s.procs| == |x.procs| && s.procs[0] == Halted(max, 1)
  {
    var i, j := max / WORD_BITS, max % WORD_BITS;
    assert max == i * WORD_BITS + j;
    assert j !in x.words[i];
    var a := Act(0, Advance);
    ReachesStep(s0, x, a);
    var y := AfterClaim(x, 0, max, Got(max, 1));
    assert Do(x, a) == y;
    ReachesStep(s0, y, a);
    s := Do(y, a);
  }

  /** With a single caller no swap ever fails; with no slots none is ever tried. */
  ghost predicate Uncontended(s: State) {
    && (|s.procs| <= 1 || s.max == 0)
    && (s.max == 0 ==> forall p :: 0 <= p < |s.owned| ==> s.owned[p] == {})
    && forall p :: 0 <= p < |s.procs| ==>
         match s.procs[p]
         case Scan(_, _, fails) => fails == 0
         case Try(i, _, mask, _, fails) => fails == 0 && (s.max > 0 ==> i < |s.words| && mask == s.words[i])
         case Got(_, fails) => fails == 0 && s.max > 0
         case Halted(_, _) => false
         case Swap(x, mask) => x / WORD_BITS < |s.words| && mask == s.words[x / WORD_BITS]
         case _ => true
  }

  lemma UncontendedStep(s: State, a: Act)
    requires Inv(s) && Uncontended(s) && Enabled(s, a)
    ensures Uncontended(Do(s, a))
  {
    assert ProcOk(s.procs[a.proc], s.owned[a.proc], s.max, |s.words|);
  }

  lemma {:induction false} RunUncontended(s: State, acts: seq<Act>)
    requires Inv(s) && Uncontended(s) && Runs(s, acts)
    ensures Uncontended(Final(s, acts))
    decreases acts
  {
    if acts != [] {
      StepInv(s, acts[0]);
      UncontendedStep(s, acts[0]);
      RunUncontended(Do(s, acts[0]), acts[1..]);
    }
  }

  ghost predicate SomeoneHalted(s: State) {
    exists p :: 0 <= p < |s.procs| && s.procs[p].Halted?
  }

  /** Some interleaving fails the range check of shared_pool_get_next exactly when the pool has
      a slot and two callers. */
  lemma RangeCheckExactly(max: nat, n: nat)
    ensures (exists s :: Reaches(Init(max, n), s) && SomeoneHalted(s)) <==> n >= 2 && max >= 1
  {
    if n >= 2 && max >= 1 {
      var s := ContentionHalts(max, n);
      assert s.procs[0].Halted?;
      assert SomeoneHalted(s);
    } else {
      forall s | Reaches(Init(max, n), s) ensures !SomeoneHalted(s) {
        var acts :| Runs(Init(max, n), acts) && Final(Init(max, n), acts) == s;
        RunUncontended(Init(max, n), acts);
      }
    }
  }

  /** A caller is about to find that the word has changed, and so not to free its slot. */
  ghost predicate FreeFails(s: State, p: nat) {
    && p < |s.procs| && s.procs[p].Swap?
    && var i := s.procs[p].index / WORD_BITS; i < |s.words| && s.words[i] != s.procs[p].mask
  }

  /** One caller claims slot 0 while another has the empty word in its hands; before it frees the slot
      the other claims slot 1. */
  lemma ContentionLeaks(max: nat, n: nat) returns (s: State)
    requires n >= 2 && max >= 1
    ensures Reaches(Init(max, n), s) && FreeFails(s, 0)
  {
    var s0 := Init(max, n);
    ReachesSelf(s0);
    assert FilledTo(s0, 0);
    ReachTry(s0, s0, 1, 0, 0);
    var u := At(s0, 1, Try(0, 0, {}, 0, 0));
    ReachTry(s0, u, 0, 0, 0);
    var v := At(u, 0, Try(0, 0, {}, 0, 0));
    SwapSucceeds(s0, v, 0, 0);
    s := OtherClaims(s0, AfterClaim(v, 0, 0, Idle));
  }

  lemma OtherClaims(s0: State, w: State) returns (s: State)
    requires Reaches(s0, w) && w.max >= 1 && |w.procs| == |w.owned| >= 2 && |w.words| > 0 && w.words[0] == {0}
    requires w.procs[0] == Idle && 0 in w.owned[0] && w.procs[1] == Try(0, 0, {}, 0, 0)
    ensures Reaches(s0, s) && FreeFails(s, 0)
  {
    ReachesStep(s0, w, Act(0, Free(0)));
    var a := Do(w, Act(0, Free(0)));
    ReachesStep(s0, a, Act(0, Advance));
    var b := Do(a, Act(0, Advance));
    ReachesStep(s0, b, Act(1, Advance));
    var c := Do(b, Act(1, Advance));
    assert c.procs[1] == Try(0, 1, {0}, 0, 1);
    ReachesStep(s0, c, Act(1, Advance));
    s := Do(c, Act(1, Advance));
    assert 1 in s.words[0];
  }

  /** Some interleaving makes a free fail, and so leaves the slot taken, exactly when the pool
      has a slot and two callers. */
  lemma FreeFailsExactly(max: nat, n: nat)
    ensures (exists s, p :: Reaches(Init(max, n), s) && FreeFails(s, p)) <==> n >= 2 && max >= 1
  {
    if n >= 2 && max >= 1 {
      var s := ContentionLeaks(max, n);
      assert Reaches(Init(max, n), s) && FreeFails(s, 0);
    } else {
      forall s, p | Reaches(Init(max, n), s) ensures !FreeFails(s, p) {
        var acts :| Runs(Init(max, n), acts) && Final(Init(max, n), acts) == s;
        RunUncontended(Init(max, n), acts);
      }
    }
  }
}
