/** The bit-assignment core shared by both revisions of the hotkey engine.

    Every key used by some binding is given its own bit of a 32-bit mask, in
    the order the keys are first met; a lookup table maps a key's slot to its
    bit (0 for keys no binding uses). A chord is then the OR of its keys'
    bits, and the keys held down at one tick are the OR of theirs, so chord
    tests become single AND/compare operations. */
module Bitmask {
  import opened Wrappers

  /** One bit per distinct key used across all bindings. */
  type Mask = bv32

  /** The error returned when a 33rd distinct key needs a bit. */
  const TOO_MANY_KEYS: string := "Only 32 distinct keys may be used for hotkeys at this time. Congratulations if you're seeing this, as I didn't think anyone would be crazy enough to use that many keys."

  /** The union of two masks. */
  function Join(a: Mask, b: Mask): Mask
  {
    a | b
  }

  /** The running bit moved up one place; the top bit shifts out. */
  function NextBit(bit: Mask): Mask
  {
    bit << 1
  }

  predicate IsSingleBit(m: Mask)
  {
    m != 0 && m & (m - 1) == 0
  }

  /** Chord test: every bit of `mask` is set in `buf`. */
  predicate Contains(buf: Mask, mask: Mask)
  {
    buf & mask == mask
  }

  /** Category test: some bit of `mask` is set in `buf`. */
  predicate Overlaps(buf: Mask, mask: Mask)
  {
    buf & mask != 0
  }

  /** The bit handed to the (n+1)-th distinct key: 1 shifted left once per
      earlier key, which becomes 0 once the shifts run off the top. */
  function BitFor(n: nat): Mask
  {
    if n == 0 then 1 else NextBit(BitFor(n - 1))
  }

  lemma ShiftStep(k: nat)
    requires k < 31
    ensures NextBit((1 as Mask) << k) == (1 as Mask) << (k + 1)
  {
    var b := k as Mask;
    assert (1 as Mask) << k == (1 as Mask) << b;
    assert (1 as Mask) << (k + 1) == (1 as Mask) << (b + 1);
  }

  lemma ShiftSingle(k: nat)
    requires k < 32
    ensures IsSingleBit((1 as Mask) << k)
  {
    assert (1 as Mask) << k == (1 as Mask) << (k as bv5);
    ShiftSingleBv(k as bv5);
  }

  lemma ShiftSingleBv(k: bv5)
    ensures IsSingleBit((1 as Mask) << k)
  {
  }

  lemma ShiftLess(j: nat, k: nat)
    requires j < k < 32
    ensures (1 as Mask) << j < (1 as Mask) << k
  {
    assert (1 as Mask) << j == (1 as Mask) << (j as bv5);
    assert (1 as Mask) << k == (1 as Mask) << (k as bv5);
    ShiftLessBv(j as bv5, k as bv5);
  }

  lemma ShiftLessBv(j: bv5, k: bv5)
    requires j < k
    ensures (1 as Mask) << j < (1 as Mask) << k
  {
  }

  lemma TopShiftsOut()
    ensures NextBit((1 as Mask) << 31) == 0
  {
  }

  lemma {:induction false} BitForClosed(n: nat)
    requires n < 32
    ensures BitFor(n) == (1 as Mask) << n
  {
    if n > 0 {
      BitForClosed(n - 1);
      ShiftStep(n - 1);
    }
  }

  /** The first 32 bits handed out are single bits; from the 33rd on the
      running bit is 0. */
  lemma BitForFacts(n: nat)
    ensures (BitFor(n) == 0) == (n >= 32)
    ensures n < 32 ==> IsSingleBit(BitFor(n))
  {
    if n < 32 {
      BitForSingle(n);
    } else {
      BitForGone(n);
    }
  }

  lemma BitForSingle(n: nat)
    requires n < 32
    ensures IsSingleBit(BitFor(n))
  {
    BitForClosed(n);
    ShiftSingle(n);
  }

  lemma {:induction false} BitForGone(n: nat)
    requires n >= 32
    ensures BitFor(n) == 0
  {
    if n == 32 {
      BitForClosed(31);
      TopShiftsOut();
    } else {
      BitForGone(n - 1);
      assert BitFor(n) == NextBit(0);
    }
  }

  /** Later keys get strictly higher bits, so no two keys share one. */
  lemma BitForIncreasing(j: nat, k: nat)
    requires j < k < 32
    ensures BitFor(j) < BitFor(k)
  {
    BitForClosed(j);
    BitForClosed(k);
    ShiftLess(j, k);
  }

  lemma SingleBitsMeet(x: Mask, y: Mask)
    requires IsSingleBit(x) && IsSingleBit(y)
    ensures (x & y != 0) == (x == y)
  {
  }

  predicate InRange(slots: seq<nat>, size: nat)
  {
    forall i | 0 <= i < |slots| :: slots[i] < size
  }

  /** OR of the table entries at `slots`, folded left to right. */
  function MaskOf(table: seq<Mask>, slots: seq<nat>): Mask
    requires InRange(slots, |table|)
  {
    if |slots| == 0 then 0 else Join(MaskOf(table, slots[..|slots| - 1]), table[slots[|slots| - 1]])
  }

  predicate Distinct(s: seq<nat>)
  {
    forall i, j | 0 <= i < j < |s| :: s[i] != s[j]
  }

  /** `seen`, followed by the elements of `s` not met before, in order of
      first appearance. */
  function FirstSeen(seen: seq<nat>, s: seq<nat>): seq<nat>
    decreases |s|
  {
    if |s| == 0 then seen
    else FirstSeen(if s[0] in seen then seen else seen + [s[0]], s[1..])
  }

  /** The table hands out bits in first-seen order: the j-th key of `order`
      holds `BitFor(j)` and every slot outside `order` holds 0. */
  predicate Laid(table: seq<Mask>, order: seq<nat>)
  {
    && Distinct(order)
    && |order| <= 32
    && InRange(order, |table|)
    && (forall j | 0 <= j < |order| :: table[order[j]] == BitFor(j))
    && (forall s | 0 <= s < |table| && s !in order :: table[s] == 0)
  }

  /** The state threaded through construction: the lookup table and the
      next bit to hand out. */
  datatype Assignment = Assignment(table: seq<Mask>, bit: Mask)

  /** `a` is the state reached after assigning bits to the keys of `order`. */
  predicate Reached(a: Assignment, order: seq<nat>)
  {
    Laid(a.table, order) && a.bit == BitFor(|order|)
  }

  /** The starting state: a zeroed table of `size` slots and bit 1. */
  function Empty(size: nat): (a: Assignment)
    ensures |a.table| == size
    ensures Reached(a, [])
  {
    Assignment(seq(size, _ => 0), 1)
  }

  /** One chord's mask with the state after assigning its keys. */
  datatype Chord = Chord(mask: Mask, assignment: Assignment)

  /** Register the keys of one chord, given by their table slots: each key
      not yet in the table takes the running bit, which then shifts left; the
      result is the OR of the chord's entries. Fails when a new key arrives
      after the running bit has shifted out. */
  function UpdateKeyBufferValues(slots: seq<nat>, a: Assignment): (r: Result<Chord, string>)
    requires InRange(slots, |a.table|)
    ensures r.Success? ==> |r.value.assignment.table| == |a.table|
  {
    RegisterFrom(slots, 0, 0, a)
  }

  /** The loop of `UpdateKeyBufferValues` from position `i` on, with the
      mask accumulated so far. */
  function RegisterFrom(slots: seq<nat>, i: nat, mask: Mask, a: Assignment): (r: Result<Chord, string>)
    requires i <= |slots| && InRange(slots, |a.table|)
    ensures r.Success? ==> |r.value.assignment.table| == |a.table|
    ensures r.Failure? ==> r.error == TOO_MANY_KEYS
    decreases |slots| - i
  {
    if i == |slots| then
      Success(Chord(mask, a))
    else
      var s := slots[i];
      if a.table[s] == 0 then
        if a.bit == 0 then
          Failure(TOO_MANY_KEYS)
        else
          RegisterFrom(slots, i + 1, Join(mask, a.bit), Assignment(a.table[s := a.bit], NextBit(a.bit)))
      else
        RegisterFrom(slots, i + 1, Join(mask, a.table[s]), a)
  }

  /** All chords concatenated, in order. */
  function Flatten(chords: seq<seq<nat>>): seq<nat>
  {
    if |chords| == 0 then [] else chords[0] + Flatten(chords[1..])
  }

  predicate AllInRange(chords: seq<seq<nat>>, size: nat)
  {
    forall k | 0 <= k < |chords| :: InRange(chords[k], size)
  }

  /** The masks of a list of chords with the final state. */
  datatype Compiled = Compiled(masks: seq<Mask>, assignment: Assignment)

  /** Register the chords one after the other, in order, stopping at the
      first failure. */
  function CompileChords(chords: seq<seq<nat>>, a: Assignment): (r: Result<Compiled, string>)
    requires AllInRange(chords, |a.table|)
    ensures r.Success? ==> |r.value.masks| == |chords| && |r.value.assignment.table| == |a.table|
    ensures r.Failure? ==> r.error == TOO_MANY_KEYS
  {
    if |chords| == 0 then
      Success(Compiled([], a))
    else
      var c :- UpdateKeyBufferValues(chords[0], a);
      var rest :- CompileChords(chords[1..], c.assignment);
      Success(Compiled([c.mask] + rest.masks, rest.assignment))
  }

  // ---------------------------------------------------------------------
  // First-seen order

  lemma {:induction false} FirstSeenFacts(seen: seq<nat>, s: seq<nat>)
    ensures |FirstSeen(seen, s)| >= |seen|
    ensures FirstSeen(seen, s)[..|seen|] == seen
    ensures forall x :: x in FirstSeen(seen, s) <==> x in seen || x in s
    ensures Distinct(seen) ==> Distinct(FirstSeen(seen, s))
    decreases |s|
  {
    if |s| > 0 {
      var seen' := if s[0] in seen then seen else seen + [s[0]];
      FirstSeenFacts(seen', s[1..]);
      assert seen'[..|seen|] == seen;
      assert forall x :: x in s <==> x == s[0] || x in s[1..] by {
        assert s == [s[0]] + s[1..];
      }
    }
  }

  lemma {:induction false} FirstSeenConcat(seen: seq<nat>, s: seq<nat>, t: seq<nat>)
    ensures FirstSeen(seen, s + t) == FirstSeen(FirstSeen(seen, s), t)
    decreases |s|
  {
    if |s| > 0 {
      assert (s + t)[0] == s[0];
      assert (s + t)[1..] == s[1..] + t;
      FirstSeenConcat(if s[0] in seen then seen else seen + [s[0]], s[1..], t);
    } else {
      assert s + t == t;
    }
  }

  /** Never more entries than elements offered. */
  lemma {:induction false} FirstSeenLength(seen: seq<nat>, s: seq<nat>)
    ensures |FirstSeen(seen, s)| <= |seen| + |s|
    decreases |s|
  {
    if |s| > 0 {
      FirstSeenLength(if s[0] in seen then seen else seen + [s[0]], s[1..]);
    }
  }

  /** The set of elements of a sequence. */
  function Elems(s: seq<nat>): (r: set<nat>)
    ensures forall x :: x in r <==> x in s
  {
    if |s| == 0 then {} else Elems(s[..|s| - 1]) + {s[|s| - 1]}
  }

  /** A sequence without repeats has as many elements as its set. */
  lemma {:induction false} DistinctCard(s: seq<nat>)
    requires Distinct(s)
    ensures |Elems(s)| == |s|
  {
    if |s| > 0 {
      var init := s[..|s| - 1];
      assert Distinct(init);
      DistinctCard(init);
      assert s[|s| - 1] !in init;
    }
  }

  // ---------------------------------------------------------------------
  // Construction

  /** In a laid-out table a slot is nonzero exactly when it is in `order`,
      and then holds a single bit. */
  lemma LaidEntry(table: seq<Mask>, order: seq<nat>, x: nat)
    requires Laid(table, order) && x < |table|
    ensures table[x] != 0 <==> x in order
    ensures table[x] == 0 || IsSingleBit(table[x])
  {
    if x in order {
      var j :| 0 <= j < |order| && order[j] == x;
      BitForFacts(j);
    }
  }

  /** In a laid-out table distinct keys have distinct bits. */
  lemma LaidDistinct(table: seq<Mask>, order: seq<nat>, x: nat, y: nat)
    requires Laid(table, order) && x < |table| && y < |table|
    requires table[x] != 0 && table[x] == table[y]
    ensures x == y
  {
    LaidEntry(table, order, x);
    LaidEntry(table, order, y);
    var j :| 0 <= j < |order| && order[j] == x;
    var k :| 0 <= k < |order| && order[k] == y;
    if j < k {
      BitForIncreasing(j, k);
    } else if k < j {
      BitForIncreasing(k, j);
    }
  }

  /** Masks only read entries that agree in the two tables. */
  lemma {:induction false} MaskOfAgree(t: seq<Mask>, t': seq<Mask>, slots: seq<nat>)
    requires InRange(slots, |t|) && InRange(slots, |t'|)
    requires forall i | 0 <= i < |slots| :: t[slots[i]] == t'[slots[i]]
    ensures MaskOf(t, slots) == MaskOf(t', slots)
  {
    if |slots| > 0 {
      MaskOfAgree(t, t', slots[..|slots| - 1]);
    }
  }

  /** A table laid out for a longer order keeps the entries of a shorter one. */
  lemma LaidExtends(t: seq<Mask>, o: seq<nat>, t': seq<Mask>, o': seq<nat>)
    requires Laid(t, o) && Laid(t', o') && |o| <= |o'| && o'[..|o|] == o
    ensures forall x | x in o :: x < |t| && x < |t'| && t[x] == t'[x]
  {
    forall x | x in o
      ensures x < |t| && x < |t'| && t[x] == t'[x]
    {
      var j :| 0 <= j < |o| && o[j] == x;
      assert o'[j] == x;
    }
  }

  /** Handing the running bit to a key not seen before keeps the table laid
      out, with the key appended to the order. */
  lemma NewKeyStep(a: Assignment, order: seq<nat>, s: nat)
    requires Reached(a, order) && s < |a.table| && s !in order && a.bit != 0
    ensures Reached(Assignment(a.table[s := a.bit], NextBit(a.bit)), order + [s])
    ensures forall x | x in order :: a.table[s := a.bit][x] == a.table[x]
  {
    var t2 := a.table[s := a.bit];
    var order2 := order + [s];
    BitForFacts(|order|);
    forall j | 0 <= j < |order2|
      ensures t2[order2[j]] == BitFor(j)
    {
      if j < |order| {
        assert order2[j] == order[j] != s;
      }
    }
    forall x | 0 <= x < |t2| && x !in order2
      ensures t2[x] == 0
    {
      assert x !in order;
    }
  }

  /** What registering the keys of `slots` comes to, given the first-seen
      order `order'` it should end in: success exactly when that order has at
      most 32 keys, and then the table laid out in that order and the chord's
      mask the OR of the final entries of its keys. */
  predicate Registered(r: Result<Chord, string>, order': seq<nat>, slots: seq<nat>)
  {
    && (r.Success? <==> |order'| <= 32)
    && (r.Success? ==>
          && Reached(r.value.assignment, order')
          && InRange(slots, |r.value.assignment.table|)
          && r.value.mask == MaskOf(r.value.assignment.table, slots))
  }

  /** The invariant of the registration loop at position `i`: the state is
      the one reached after `order`, every key before `i` is placed, and
      `mask` is the OR of their entries. */
  predicate LoopInvariant(slots: seq<nat>, i: nat, mask: Mask, a: Assignment, order: seq<nat>)
  {
    && i <= |slots| && InRange(slots, |a.table|)
    && Reached(a, order)
    && (forall j | 0 <= j < i :: slots[j] in order)
    && mask == MaskOf(a.table, slots[..i])
  }

  /** A key met for the first time takes the running bit, when there is one. */
  lemma NewKeyPreserves(slots: seq<nat>, i: nat, mask: Mask, a: Assignment, order: seq<nat>)
    requires LoopInvariant(slots, i, mask, a, order) && i < |slots|
    requires slots[i] !in order && a.bit != 0
    ensures LoopInvariant(slots, i + 1, Join(mask, a.bit), Assignment(a.table[slots[i] := a.bit], NextBit(a.bit)), order + [slots[i]])
  {
    var s := slots[i];
    var t2 := a.table[s := a.bit];
    NewKeyStep(a, order, s);
    MaskOfAgree(a.table, t2, slots[..i]);
    assert slots[..i + 1][..i] == slots[..i];
  }

  /** A key already placed leaves the state alone and adds its bit. */
  lemma OldKeyPreserves(slots: seq<nat>, i: nat, mask: Mask, a: Assignment, order: seq<nat>)
    requires LoopInvariant(slots, i, mask, a, order) && i < |slots|
    requires slots[i] in order
    ensures LoopInvariant(slots, i + 1, Join(mask, a.table[slots[i]]), a, order)
  {
    assert slots[..i + 1][..i] == slots[..i];
  }

  /** What the next key of the loop decides. */
  lemma LoopStep(slots: seq<nat>, i: nat, mask: Mask, a: Assignment, order: seq<nat>)
    requires LoopInvariant(slots, i, mask, a, order) && i < |slots|
    ensures (a.table[slots[i]] == 0) == (slots[i] !in order)
    ensures (a.bit == 0) == (|order| >= 32)
    ensures FirstSeen(order, slots[i..]) == FirstSeen(if slots[i] in order then order else order + [slots[i]], slots[i + 1..])
    ensures slots[i] !in order && a.bit == 0 ==> |FirstSeen(order, slots[i..])| > 32
  {
    var s := slots[i];
    FirstSeenStep(order, slots, i, FirstSeen(order, slots[i..]));
    LaidEntry(a.table, order, s);
    BitForFacts(|order|);
    FirstSeenFacts(order + [s], slots[i + 1..]);
  }

  /** The loop of `UpdateKeyBufferValues` from position `i`, once the keys
      before `i` are placed and their entries ORed into `mask`. */
  lemma {:induction false} RegisterFromSpec(slots: seq<nat>, i: nat, mask: Mask, a: Assignment, order: seq<nat>)
    requires LoopInvariant(slots, i, mask, a, order)
    ensures Registered(RegisterFrom(slots, i, mask, a), FirstSeen(order, slots[i..]), slots)
    decreases |slots| - i, 1
  {
    if i == |slots| {
      assert slots[i..] == [];
      assert slots[..i] == slots;
    } else if a.table[slots[i]] != 0 {
      RegisterOldSpec(slots, i, mask, a, order);
    } else if a.bit != 0 {
      var r := RegisterFrom(slots, i, mask, a);
      var order' := FirstSeen(order, slots[i..]);
      LoopStep(slots, i, mask, a, order);
      RegisterFreshRest(slots, i, mask, a, order);
      RegisterFreshUnfold(slots, i, mask, a, r);
      FirstSeenStep(order, slots, i, order');
    } else {
      RegisterOverflowSpec(slots, i, mask, a, order);
    }
  }

  /** The loop meeting a new key after the running bit has shifted out. */
  lemma RegisterOverflowSpec(slots: seq<nat>, i: nat, mask: Mask, a: Assignment, order: seq<nat>)
    requires LoopInvariant(slots, i, mask, a, order) && i < |slots| && a.table[slots[i]] == 0 && a.bit == 0
    ensures Registered(RegisterFrom(slots, i, mask, a), FirstSeen(order, slots[i..]), slots)
  {
    LoopStep(slots, i, mask, a, order);
  }

  /** Handing the running bit to a key met for the first time leaves the
      outcome to the rest of the loop. */
  lemma RegisterFreshUnfold(slots: seq<nat>, i: nat, mask: Mask, a: Assignment, r: Result<Chord, string>)
    requires i < |slots| && InRange(slots, |a.table|) && a.table[slots[i]] == 0 && a.bit != 0
    requires r == RegisterFrom(slots, i, mask, a)
    ensures r == RegisterFrom(slots, i + 1, Join(mask, a.bit), Assignment(a.table[slots[i] := a.bit], NextBit(a.bit)))
  {
  }

  /** The first-seen order after position `i`, one key at a time. */
  lemma FirstSeenStep(order: seq<nat>, slots: seq<nat>, i: nat, order': seq<nat>)
    requires i < |slots| && order' == FirstSeen(order, slots[i..])
    ensures order' == FirstSeen(if slots[i] in order then order else order + [slots[i]], slots[i + 1..])
  {
    assert slots[i..][0] == slots[i] && slots[i..][1..] == slots[i + 1..];
  }

  /** The rest of the loop once a key met for the first time has taken the
      running bit. */
  lemma {:induction false} RegisterFreshRest(slots: seq<nat>, i: nat, mask: Mask, a: Assignment, order: seq<nat>)
    requires LoopInvariant(slots, i, mask, a, order) && i < |slots| && a.table[slots[i]] == 0 && a.bit != 0
    ensures Registered(RegisterFrom(slots, i + 1, Join(mask, a.bit), Assignment(a.table[slots[i] := a.bit], NextBit(a.bit))),
                       FirstSeen(order + [slots[i]], slots[i + 1..]), slots)
    decreases |slots| - i, 0
  {
    var s := slots[i];
    LoopStep(slots, i, mask, a, order);
    NewKeyPreserves(slots, i, mask, a, order);
    RegisterFromSpec(slots, i + 1, Join(mask, a.bit), Assignment(a.table[s := a.bit], NextBit(a.bit)), order + [s]);
  }

  /** The loop meeting a key that already has its bit. */
  lemma {:induction false} RegisterOldSpec(slots: seq<nat>, i: nat, mask: Mask, a: Assignment, order: seq<nat>)
    requires LoopInvariant(slots, i, mask, a, order) && i < |slots| && a.table[slots[i]] != 0
    ensures Registered(RegisterFrom(slots, i, mask, a), FirstSeen(order, slots[i..]), slots)
    decreases |slots| - i, 0
  {
    LoopStep(slots, i, mask, a, order);
    OldKeyPreserves(slots, i, mask, a, order);
    RegisterFromSpec(slots, i + 1, Join(mask, a.table[slots[i]]), a, order);
  }

  /** Registering one chord, stated on the whole chord. */
  lemma UpdateSpec(slots: seq<nat>, a: Assignment, order: seq<nat>)
    requires InRange(slots, |a.table|) && Reached(a, order)
    ensures Registered(UpdateKeyBufferValues(slots, a), FirstSeen(order, slots), slots)
  {
    assert slots[0..] == slots;
    assert slots[..0] == [];
    RegisterFromSpec(slots, 0, 0, a, order);
  }

  lemma {:induction false} FlattenInRange(chords: seq<seq<nat>>, size: nat)
    requires AllInRange(chords, size)
    ensures InRange(Flatten(chords), size)
  {
    if |chords| > 0 {
      FlattenInRange(chords[1..], size);
    }
  }

  /** What compiling `chords` comes to, given the first-seen order `order'`
      over all of them: success exactly when that order has at most 32 keys,
      and then the table laid out in that order and each chord's mask the OR
      of the final entries of its keys. */
  predicate CompiledAs(r: Result<Compiled, string>, order': seq<nat>, chords: seq<seq<nat>>)
  {
    && (r.Success? <==> |order'| <= 32)
    && (r.Success? ==>
          && Reached(r.value.assignment, order')
          && |r.value.masks| == |chords|
          && AllInRange(chords, |r.value.assignment.table|)
          && forall k | 0 <= k < |chords| :: r.value.masks[k] == MaskOf(r.value.assignment.table, chords[k]))
  }

  /** One step of `CompileChords`, with the first chord's outcome `c` and
      the rest's outcome `rest` named. */
  lemma CompileUnfold(chords: seq<seq<nat>>, a: Assignment, c: Result<Chord, string>, rest: Result<Compiled, string>)
    requires AllInRange(chords, |a.table|) && |chords| > 0
    requires c == UpdateKeyBufferValues(chords[0], a)
    requires c.Success? ==> rest == CompileChords(chords[1..], c.value.assignment)
    ensures c.Failure? ==> CompileChords(chords, a) == Failure(c.error)
    ensures c.Success? && rest.Failure? ==> CompileChords(chords, a) == Failure(rest.error)
    ensures c.Success? && rest.Success? ==>
              CompileChords(chords, a) == Success(Compiled([c.value.mask] + rest.value.masks, rest.value.assignment))
  {
  }

  /** The first chord's keys, then the rest's. */
  lemma OrderUnfold(order: seq<nat>, chords: seq<seq<nat>>)
    requires |chords| > 0
    ensures FirstSeen(order, Flatten(chords)) == FirstSeen(FirstSeen(order, chords[0]), Flatten(chords[1..]))
    ensures |FirstSeen(order, Flatten(chords))| >= |FirstSeen(order, chords[0])|
    ensures FirstSeen(order, Flatten(chords))[..|FirstSeen(order, chords[0])|] == FirstSeen(order, chords[0])
  {
    FirstSeenConcat(order, chords[0], Flatten(chords[1..]));
    FirstSeenFacts(FirstSeen(order, chords[0]), Flatten(chords[1..]));
  }

  /** Putting a registered first chord in front of the compiled rest; `r`
      names the combined outcome. */
  lemma CompileCons(chords: seq<seq<nat>>, c: Chord, rest: Compiled, order: seq<nat>, order': seq<nat>, r: Result<Compiled, string>)
    requires |chords| > 0
    requires Registered(Success(c), FirstSeen(order, chords[0]), chords[0])
    requires CompiledAs(Success(rest), order', chords[1..])
    requires |c.assignment.table| == |rest.assignment.table|
    requires |FirstSeen(order, chords[0])| <= |order'| && order'[..|FirstSeen(order, chords[0])|] == FirstSeen(order, chords[0])
    requires r == Success(Compiled([c.mask] + rest.masks, rest.assignment))
    ensures CompiledAs(r, order', chords)
  {
    var order1 := FirstSeen(order, chords[0]);
    var t1 := c.assignment.table;
    var tf := rest.assignment.table;
    LaidExtends(t1, order1, tf, order');
    FirstSeenFacts(order, chords[0]);
    assert forall i | 0 <= i < |chords[0]| :: chords[0][i] in order1;
    MaskOfAgree(t1, tf, chords[0]);
    forall k | 0 <= k < |chords|
      ensures InRange(chords[k], |tf|) && r.value.masks[k] == MaskOf(tf, chords[k])
    {
      if k > 0 {
        assert chords[k] == chords[1..][k - 1];
      }
    }
  }

  /** A failed compilation whose order runs past 32 keys is as specified. */
  lemma CompileFails(r: Result<Compiled, string>, order': seq<nat>, chords: seq<seq<nat>>)
    requires r.Failure? && |order'| > 32
    ensures CompiledAs(r, order', chords)
  {
  }

  /** Compiling a list of chords succeeds exactly when all of them together,
      after the keys already placed, need at most 32 distinct keys. The table
      is then laid out in first-seen order over all chords, and each chord's
      mask is the OR of the final entries of its keys. */
  lemma {:induction false} CompileSpec(chords: seq<seq<nat>>, a: Assignment, order: seq<nat>)
    requires AllInRange(chords, |a.table|) && Reached(a, order)
    ensures CompiledAs(CompileChords(chords, a), FirstSeen(order, Flatten(chords)), chords)
  {
    if |chords| == 0 {
      assert Flatten(chords) == [];
    } else {
      var c := UpdateKeyBufferValues(chords[0], a);
      var order1 := FirstSeen(order, chords[0]);
      var order' := FirstSeen(order, Flatten(chords));
      UpdateSpec(chords[0], a, order);
      OrderUnfold(order, chords);
      if c.Success? {
        var a1 := c.value.assignment;
        var rest := CompileChords(chords[1..], a1);
        CompileSpec(chords[1..], a1, order1);
        CompileUnfold(chords, a, c, rest);
        if rest.Success? {
          CompileCons(chords, c.value, rest.value, order, order', CompileChords(chords, a));
        } else {
          CompileFails(CompileChords(chords, a), order', chords);
        }
      } else {
        CompileUnfold(chords, a, c, Failure(TOO_MANY_KEYS));
        CompileFails(CompileChords(chords, a), order', chords);
      }
    }
  }

  // ---------------------------------------------------------------------
  // Masks of pressed keys

  lemma {:induction false} MaskOfConcat(t: seq<Mask>, p: seq<nat>, q: seq<nat>)
    requires InRange(p, |t|) && InRange(q, |t|)
    ensures InRange(p + q, |t|)
    ensures MaskOf(t, p + q) == Join(MaskOf(t, p), MaskOf(t, q))
    decreases |q|
  {
    if |q| > 0 {
      assert (p + q)[..|p + q| - 1] == p + q[..|q| - 1];
      MaskOfConcat(t, p, q[..|q| - 1]);
    } else {
      assert p + q == p;
    }
  }

  /** A key whose entry is 0, pressed anywhere among the others, changes
      nothing. */
  lemma UnusedKeyInvisible(t: seq<Mask>, p: seq<nat>, x: nat, q: seq<nat>)
    requires InRange(p, |t|) && InRange(q, |t|) && x < |t| && t[x] == 0
    ensures InRange(p + [x] + q, |t|) && InRange(p + q, |t|)
    ensures MaskOf(t, p + [x] + q) == MaskOf(t, p + q)
  {
    MaskOfConcat(t, p, [x]);
    assert [x][..0] == [];
    MaskOfConcat(t, p + [x], q);
    MaskOfConcat(t, p, q);
  }

  lemma OrContainedLeft(x: Mask, a: Mask, b: Mask)
    requires Contains(x, Join(a, b))
    ensures Contains(x, a)
  {
  }

  lemma OrContainedRight(x: Mask, a: Mask, b: Mask)
    requires Contains(x, Join(a, b))
    ensures Contains(x, b)
  {
  }

  lemma OrContainedBoth(x: Mask, a: Mask, b: Mask)
    requires Contains(x, a) && Contains(x, b)
    ensures Contains(x, Join(a, b))
  {
  }

  lemma OrContained(x: Mask, a: Mask, b: Mask)
    ensures Contains(x, Join(a, b)) == (Contains(x, a) && Contains(x, b))
  {
    if Contains(x, Join(a, b)) {
      OrContainedLeft(x, a, b);
      OrContainedRight(x, a, b);
    } else if Contains(x, a) && Contains(x, b) {
      OrContainedBoth(x, a, b);
    }
  }

  lemma MeetsLeft(x: Mask, a: Mask, b: Mask)
    requires Overlaps(x, a)
    ensures Overlaps(x, Join(a, b))
  {
  }

  lemma MeetsNeither(x: Mask, a: Mask, b: Mask)
    requires !Overlaps(x, a) && !Overlaps(x, b)
    ensures !Overlaps(x, Join(a, b))
  {
  }

  /** `x` meets an OR exactly when it meets one of the two operands. */
  lemma OrMeets(x: Mask, a: Mask, b: Mask)
    ensures Overlaps(x, Join(a, b)) == (Overlaps(x, a) || Overlaps(x, b))
  {
    if Overlaps(x, a) {
      MeetsLeft(x, a, b);
    } else if Overlaps(x, b) {
      MeetsLeft(x, b, a);
      assert Join(b, a) == Join(a, b);
    } else {
      MeetsNeither(x, a, b);
    }
  }

  /** Every entry at `p` is contained in `x`. */
  predicate AllContained(x: Mask, t: seq<Mask>, p: seq<nat>)
    requires InRange(p, |t|)
  {
    forall j | 0 <= j < |p| :: Contains(x, t[p[j]])
  }

  /** Some entry at `p` meets `x`. */
  predicate SomeOverlaps(x: Mask, t: seq<Mask>, p: seq<nat>)
    requires InRange(p, |t|)
  {
    exists j | 0 <= j < |p| :: Overlaps(x, t[p[j]])
  }

  lemma MaskOfStep(t: seq<Mask>, p: seq<nat>)
    requires InRange(p, |t|) && |p| > 0
    ensures MaskOf(t, p) == Join(MaskOf(t, p[..|p| - 1]), t[p[|p| - 1]])
  {
  }

  /** A mask is contained in `x` exactly when each entry it ORs is. */
  lemma {:induction false} MaskOfContained(t: seq<Mask>, p: seq<nat>, x: Mask)
    requires InRange(p, |t|)
    ensures Contains(x, MaskOf(t, p)) <==> AllContained(x, t, p)
  {
    if |p| > 0 {
      var n := |p| - 1;
      var init := p[..n];
      var m := MaskOf(t, init);
      var e := t[p[n]];
      assert Contains(x, MaskOf(t, p)) == (Contains(x, m) && Contains(x, e)) by {
        MaskOfStep(t, p);
        OrContained(x, m, e);
      }
      assert AllContained(x, t, p) == (AllContained(x, t, init) && Contains(x, e)) by {
        assert forall j | 0 <= j < n :: init[j] == p[j];
      }
      MaskOfContained(t, init, x);
    }
  }

  /** A mask meets `x` exactly when one of the entries it ORs does. */
  lemma {:induction false} MaskOfMeets(t: seq<Mask>, p: seq<nat>, x: Mask)
    requires InRange(p, |t|)
    ensures Overlaps(x, MaskOf(t, p)) <==> SomeOverlaps(x, t, p)
  {
    if |p| > 0 {
      var n := |p| - 1;
      var init := p[..n];
      var m := MaskOf(t, init);
      var e := t[p[n]];
      assert Overlaps(x, MaskOf(t, p)) == (Overlaps(x, m) || Overlaps(x, e)) by {
        MaskOfStep(t, p);
        OrMeets(x, m, e);
      }
      assert SomeOverlaps(x, t, p) == (SomeOverlaps(x, t, init) || Overlaps(x, e)) by {
        assert forall j | 0 <= j < n :: init[j] == p[j];
      }
      MaskOfMeets(t, init, x);
    }
  }

  lemma SingleContained(e: Mask, buf: Mask)
    requires IsSingleBit(e)
    ensures Contains(buf, e) == Overlaps(e, buf)
  {
  }

  lemma OverlapsSymmetric(x: Mask, y: Mask)
    ensures Overlaps(x, y) == Overlaps(y, x)
  {
  }

  /** Over a laid-out table, the entry of a placed key meets another entry
      exactly when both belong to the same key. */
  lemma EntriesMeet(t: seq<Mask>, order: seq<nat>, x: nat, y: nat)
    requires Laid(t, order) && x in order && y < |t|
    ensures Overlaps(t[x], t[y]) <==> x == y
  {
    LaidEntry(t, order, x);
    LaidEntry(t, order, y);
    if t[y] != 0 {
      SingleBitsMeet(t[x], t[y]);
      if t[x] == t[y] {
        LaidDistinct(t, order, x, y);
      }
    }
  }

  /** Over a laid-out table, the bit of a placed key is in the mask of a
      pressed set exactly when the key is pressed. */
  lemma EntryPressed(t: seq<Mask>, order: seq<nat>, x: nat, pressed: seq<nat>)
    requires Laid(t, order) && x in order && InRange(pressed, |t|)
    ensures x < |t|
    ensures Overlaps(t[x], MaskOf(t, pressed)) <==> x in pressed
  {
    MaskOfMeets(t, pressed, t[x]);
    forall k | 0 <= k < |pressed|
      ensures Overlaps(t[x], t[pressed[k]]) <==> pressed[k] == x
    {
      EntriesMeet(t, order, x, pressed[k]);
    }
  }

  /** Over a laid-out table, a pressed set covers a chord's mask exactly
      when every key of the chord is pressed. Keys the chord does not use,
      pressed or not, make no difference. */
  lemma ChordContained(t: seq<Mask>, order: seq<nat>, chord: seq<nat>, pressed: seq<nat>)
    requires Laid(t, order) && InRange(chord, |t|) && InRange(pressed, |t|)
    requires forall j | 0 <= j < |chord| :: chord[j] in order
    ensures Contains(MaskOf(t, pressed), MaskOf(t, chord)) <==> forall j | 0 <= j < |chord| :: chord[j] in pressed
  {
    var buf := MaskOf(t, pressed);
    MaskOfContained(t, chord, buf);
    forall j | 0 <= j < |chord|
      ensures Contains(buf, t[chord[j]]) <==> chord[j] in pressed
    {
      LaidEntry(t, order, chord[j]);
      SingleContained(t[chord[j]], buf);
      EntryPressed(t, order, chord[j], pressed);
    }
  }

  /** Over a laid-out table, a pressed set meets a group of chords exactly
      when some pressed key belongs to one of them. */
  lemma GroupOverlaps(t: seq<Mask>, order: seq<nat>, group: seq<nat>, pressed: seq<nat>)
    requires Laid(t, order) && InRange(group, |t|) && InRange(pressed, |t|)
    requires forall j | 0 <= j < |group| :: group[j] in order
    ensures Overlaps(MaskOf(t, pressed), MaskOf(t, group)) <==> exists j | 0 <= j < |group| :: group[j] in pressed
  {
    var buf := MaskOf(t, pressed);
    MaskOfMeets(t, group, buf);
    forall j | 0 <= j < |group|
      ensures Overlaps(buf, t[group[j]]) <==> group[j] in pressed
    {
      OverlapsSymmetric(buf, t[group[j]]);
      EntryPressed(t, order, group[j], pressed);
    }
    OverlapsSymmetric(buf, MaskOf(t, group));
  }
}
