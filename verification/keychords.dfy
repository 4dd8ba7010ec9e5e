/** What both revisions of the hotkey engine share: key types, the slots
    of a list of chords, compiling those chords into one lookup table, the
    meaning of the resulting masks for the keys down, and the wrapping
    held-frame counter. Each revision lists its own chords in its own
    order and keeps its own buffer record. */
module KeyChords {
  import opened Wrappers
  import opened Ints
  import Keycodes
  import opened Bitmask

  /** A chord: every key in it must be down for its action to fire. */
  type KeyBinding = seq<Keycodes.Keycode>

  /** What the engine needs of a platform's key type: the size of the
      lookup table, each key's slot in it, and the conversion from the
      canonical keys bindings are written in. */
  datatype KeycodeType<!K> = KeycodeType(numVariants: nat, index: K -> nat, fromKeycode: Keycodes.Keycode -> K)

  /** Every key's slot lies inside the table and distinct keys have
      distinct slots. */
  ghost predicate ValidKeycodeType<K(!new)>(kt: KeycodeType<K>)
  {
    && (forall k :: kt.index(k) < kt.numVariants)
    && (forall x, y :: kt.index(x) == kt.index(y) ==> x == y)
  }

  // ---------------------------------------------------------------------
  // Slots of chords

  /** The lookup-table slot of a canonical key. */
  function Slot<K>(kt: KeycodeType<K>, k: Keycodes.Keycode): nat
  {
    kt.index(kt.fromKeycode(k))
  }

  function Slots<K>(kt: KeycodeType<K>, chord: KeyBinding): (r: seq<nat>)
    ensures |r| == |chord|
    ensures forall j | 0 <= j < |chord| :: r[j] == Slot(kt, chord[j])
  {
    seq(|chord|, j requires 0 <= j < |chord| => Slot(kt, chord[j]))
  }

  lemma SlotsInRange<K(!new)>(kt: KeycodeType<K>, chord: KeyBinding)
    requires ValidKeycodeType(kt)
    ensures InRange(Slots(kt, chord), kt.numVariants)
  {
  }

  lemma SlotsConcat<K>(kt: KeycodeType<K>, x: KeyBinding, y: KeyBinding)
    ensures Slots(kt, x + y) == Slots(kt, x) + Slots(kt, y)
  {
    assert forall j | 0 <= j < |x + y| :: Slots(kt, x + y)[j] == (Slots(kt, x) + Slots(kt, y))[j];
  }

  /** The keys of all chords, in order, repeats kept. */
  function Concat(bs: seq<KeyBinding>): KeyBinding
  {
    if |bs| == 0 then [] else bs[0] + Concat(bs[1..])
  }

  lemma {:induction false} ConcatHas(bs: seq<KeyBinding>, i: nat, j: nat)
    requires i < |bs| && j < |bs[i]|
    ensures bs[i][j] in Concat(bs)
  {
    if i > 0 {
      ConcatHas(bs[1..], i - 1, j);
    } else {
      assert Concat(bs)[j] == bs[0][j];
    }
  }

  /** Every key of one chord is among the keys of all chords. */
  lemma MemberBound(bs: seq<KeyBinding>, i: nat)
    requires i < |bs|
    ensures forall k | k in bs[i] :: k in Concat(bs)
  {
    forall k | k in bs[i]
      ensures k in Concat(bs)
    {
      var j :| 0 <= j < |bs[i]| && bs[i][j] == k;
      ConcatHas(bs, i, j);
    }
  }

  function SlotsEach<K>(kt: KeycodeType<K>, bs: seq<KeyBinding>): (r: seq<seq<nat>>)
    ensures |r| == |bs|
    ensures forall i | 0 <= i < |bs| :: r[i] == Slots(kt, bs[i])
  {
    seq(|bs|, i requires 0 <= i < |bs| => Slots(kt, bs[i]))
  }

  lemma {:induction false} FlattenSlots<K>(kt: KeycodeType<K>, bs: seq<KeyBinding>)
    ensures Flatten(SlotsEach(kt, bs)) == Slots(kt, Concat(bs))
  {
    if |bs| > 0 {
      assert SlotsEach(kt, bs)[1..] == SlotsEach(kt, bs[1..]);
      FlattenSlots(kt, bs[1..]);
      SlotsConcat(kt, bs[0], Concat(bs[1..]));
    }
  }

  /** The slots of the bound keys, in the order they receive their bits. */
  function KeyOrder<K(!new)>(kt: KeycodeType<K>, bs: seq<KeyBinding>): seq<nat>
  {
    FirstSeen([], Flatten(SlotsEach(kt, bs)))
  }

  /** The key order is the bound keys' slots without repeats. */
  lemma KeyOrderElems<K(!new)>(kt: KeycodeType<K>, bs: seq<KeyBinding>)
    ensures Distinct(KeyOrder(kt, bs))
    ensures forall x :: x in KeyOrder(kt, bs) <==> x in Slots(kt, Concat(bs))
    ensures |KeyOrder(kt, bs)| <= |Concat(bs)|
  {
    FlattenSlots(kt, bs);
    FirstSeenFacts([], Slots(kt, Concat(bs)));
    FirstSeenLength([], Slots(kt, Concat(bs)));
  }

  /** A platform key's slot is among the slots of a key list exactly when
      some key of the list converts to it. */
  lemma SlotsHave<K(!new)>(kt: KeycodeType<K>, keys: KeyBinding, d: K)
    requires ValidKeycodeType(kt)
    ensures kt.index(d) in Slots(kt, keys) <==> exists k :: k in keys && kt.fromKeycode(k) == d
  {
    var ss := Slots(kt, keys);
    if kt.index(d) in ss {
      var j :| 0 <= j < |keys| && ss[j] == kt.index(d);
      assert keys[j] in keys && kt.fromKeycode(keys[j]) == d;
    }
    if exists k :: k in keys && kt.fromKeycode(k) == d {
      var k :| k in keys && kt.fromKeycode(k) == d;
      var j :| 0 <= j < |keys| && keys[j] == k;
      assert ss[j] == kt.index(d);
    }
  }

  /** Every slot in a key list's slots is the slot of one of its keys. */
  lemma SlotsFrom<K>(kt: KeycodeType<K>, keys: KeyBinding, x: nat)
    requires x in Slots(kt, keys)
    ensures exists k :: k in keys && Slot(kt, k) == x
  {
    var j :| 0 <= j < |keys| && Slots(kt, keys)[j] == x;
    assert keys[j] in keys && Slot(kt, keys[j]) == x;
  }

  /** The key order holds the slot of each platform key some chord key
      converts to, once each, and nothing else: its length is the number
      of distinct platform keys the chords use. */
  lemma KeyOrderKeys<K(!new)>(kt: KeycodeType<K>, bs: seq<KeyBinding>)
    requires ValidKeycodeType(kt)
    ensures Distinct(KeyOrder(kt, bs)) && |Elems(KeyOrder(kt, bs))| == |KeyOrder(kt, bs)|
    ensures forall d: K :: kt.index(d) in KeyOrder(kt, bs) <==> exists k :: k in Concat(bs) && kt.fromKeycode(k) == d
    ensures forall x :: x in KeyOrder(kt, bs) ==> exists k :: k in Concat(bs) && Slot(kt, k) == x
    ensures |KeyOrder(kt, bs)| <= |Concat(bs)|
  {
    KeyOrderElems(kt, bs);
    DistinctCard(KeyOrder(kt, bs));
    forall d: K
      ensures kt.index(d) in KeyOrder(kt, bs) <==> exists k :: k in Concat(bs) && kt.fromKeycode(k) == d
    {
      SlotsHave(kt, Concat(bs), d);
    }
    forall x | x in KeyOrder(kt, bs)
      ensures exists k :: k in Concat(bs) && Slot(kt, k) == x
    {
      SlotsFrom(kt, Concat(bs), x);
    }
  }

  /** The slots of a list of bound keys are all in the key order. */
  lemma BoundInOrder<K(!new)>(kt: KeycodeType<K>, bs: seq<KeyBinding>, group: KeyBinding)
    requires forall k | k in group :: k in Concat(bs)
    ensures forall j | 0 <= j < |group| :: Slots(kt, group)[j] in KeyOrder(kt, bs)
  {
    var keys := Concat(bs);
    KeyOrderElems(kt, bs);
    forall j | 0 <= j < |group|
      ensures Slots(kt, group)[j] in Slots(kt, keys)
    {
      assert group[j] in group;
      var i :| 0 <= i < |keys| && keys[i] == group[j];
      assert Slots(kt, keys)[i] == Slots(kt, group)[j];
    }
  }

  // ---------------------------------------------------------------------
  // Compiling the chords

  /** Register the chords in order into a zeroed table of one entry per
      slot, stopping at the first that needs a 33rd key. */
  function Compile<K(!new)>(kt: KeycodeType<K>, bs: seq<KeyBinding>): (r: Result<Compiled, string>)
    requires ValidKeycodeType(kt)
    ensures r.Success? ==> |r.value.masks| == |bs| && |r.value.assignment.table| == kt.numVariants
    ensures r.Failure? ==> r.error == TOO_MANY_KEYS
  {
    CompileChords(SlotsEach(kt, bs), Empty(kt.numVariants))
  }

  /** Compilation succeeds exactly when the chords use at most 32 distinct
      platform keys, and otherwise fails with the too-many-keys message. */
  lemma CompileAccepts<K(!new)>(kt: KeycodeType<K>, bs: seq<KeyBinding>)
    requires ValidKeycodeType(kt)
    ensures Compile(kt, bs).Success? <==> |KeyOrder(kt, bs)| <= 32
    ensures Compile(kt, bs).Failure? ==> Compile(kt, bs).error == TOO_MANY_KEYS
  {
    CompileSpec(SlotsEach(kt, bs), Empty(kt.numVariants), []);
  }

  /** Chords with at most 32 keys in all, repeats counted, compile. */
  lemma FewKeysCompile<K(!new)>(kt: KeycodeType<K>, bs: seq<KeyBinding>)
    requires ValidKeycodeType(kt) && |Concat(bs)| <= 32
    ensures Compile(kt, bs).Success?
  {
    KeyOrderElems(kt, bs);
    CompileAccepts(kt, bs);
  }

  /** A successful compilation, given as `c`, hands out bits in key order
      and gives each chord the OR of its keys' bits. */
  lemma CompileLaid<K(!new)>(kt: KeycodeType<K>, bs: seq<KeyBinding>, c: Compiled)
    requires ValidKeycodeType(kt) && Compile(kt, bs) == Success(c)
    ensures |c.masks| == |bs| && |c.assignment.table| == kt.numVariants
    ensures Laid(c.assignment.table, KeyOrder(kt, bs))
    ensures forall i | 0 <= i < |bs| :: InRange(Slots(kt, bs[i]), kt.numVariants)
    ensures forall i | 0 <= i < |bs| :: c.masks[i] == MaskOf(c.assignment.table, Slots(kt, bs[i]))
  {
    CompileSpec(SlotsEach(kt, bs), Empty(kt.numVariants), []);
    forall i | 0 <= i < |bs|
      ensures InRange(Slots(kt, bs[i]), kt.numVariants)
    {
      SlotsInRange(kt, bs[i]);
    }
  }

  /** The OR of two chords' masks is the mask of their keys together. */
  lemma JoinSlots<K(!new)>(kt: KeycodeType<K>, t: seq<Mask>, x: KeyBinding, y: KeyBinding)
    requires ValidKeycodeType(kt) && |t| == kt.numVariants
    ensures InRange(Slots(kt, x), |t|) && InRange(Slots(kt, y), |t|) && InRange(Slots(kt, x + y), |t|)
    ensures Join(MaskOf(t, Slots(kt, x)), MaskOf(t, Slots(kt, y))) == MaskOf(t, Slots(kt, x + y))
  {
    SlotsConcat(kt, x, y);
    MaskOfConcat(t, Slots(kt, x), Slots(kt, y));
  }

  // ---------------------------------------------------------------------
  // Keys down

  function PressedSlots<K>(kt: KeycodeType<K>, keys: seq<K>): (r: seq<nat>)
    ensures |r| == |keys|
    ensures forall i | 0 <= i < |keys| :: r[i] == kt.index(keys[i])
  {
    seq(|keys|, i requires 0 <= i < |keys| => kt.index(keys[i]))
  }

  lemma PressedInRange<K(!new)>(kt: KeycodeType<K>, keys: seq<K>)
    requires ValidKeycodeType(kt)
    ensures InRange(PressedSlots(kt, keys), kt.numVariants)
  {
  }

  /** Every key of the chord is down (vacuously so for an empty chord). */
  predicate Held<K(==)>(kt: KeycodeType<K>, chord: KeyBinding, keys: seq<K>)
  {
    forall j | 0 <= j < |chord| :: kt.fromKeycode(chord[j]) in keys
  }

  /** Some key of the list is down. */
  predicate AnyHeld<K(==)>(kt: KeycodeType<K>, group: KeyBinding, keys: seq<K>)
  {
    exists j | 0 <= j < |group| :: kt.fromKeycode(group[j]) in keys
  }

  lemma SlotPressed<K(!new)>(kt: KeycodeType<K>, k: Keycodes.Keycode, keys: seq<K>)
    requires ValidKeycodeType(kt)
    ensures Slot(kt, k) in PressedSlots(kt, keys) <==> kt.fromKeycode(k) in keys
  {
    var ps := PressedSlots(kt, keys);
    if kt.fromKeycode(k) in keys {
      var i :| 0 <= i < |keys| && keys[i] == kt.fromKeycode(k);
      assert ps[i] == Slot(kt, k);
    }
  }

  /** A chord is down exactly when each of its slots is among the slots
      of the keys down. */
  lemma HeldIffSlots<K(!new)>(kt: KeycodeType<K>, chord: KeyBinding, keys: seq<K>)
    requires ValidKeycodeType(kt)
    ensures Held(kt, chord, keys)
        <==> forall j | 0 <= j < |chord| :: Slots(kt, chord)[j] in PressedSlots(kt, keys)
  {
    forall j | 0 <= j < |chord|
      ensures Slots(kt, chord)[j] in PressedSlots(kt, keys) <==> kt.fromKeycode(chord[j]) in keys
    {
      SlotPressed(kt, chord[j], keys);
    }
  }

  /** Some key of a list is down exactly when one of its slots is among
      the slots of the keys down. */
  lemma AnyHeldIffSlots<K(!new)>(kt: KeycodeType<K>, group: KeyBinding, keys: seq<K>)
    requires ValidKeycodeType(kt)
    ensures AnyHeld(kt, group, keys)
        <==> exists j | 0 <= j < |group| :: Slots(kt, group)[j] in PressedSlots(kt, keys)
  {
    forall j | 0 <= j < |group|
      ensures Slots(kt, group)[j] in PressedSlots(kt, keys) <==> kt.fromKeycode(group[j]) in keys
    {
      SlotPressed(kt, group[j], keys);
    }
  }

  /** With bits laid out for the chords, the snapshot of the keys down
      contains the mask of a list of bound keys exactly when all of them
      are down, and meets it exactly when one of them is; other keys down
      make no difference. */
  lemma SnapshotIffHeld<K(!new)>(kt: KeycodeType<K>, bs: seq<KeyBinding>, t: seq<Mask>, group: KeyBinding, keys: seq<K>)
    requires ValidKeycodeType(kt) && |t| == kt.numVariants && Laid(t, KeyOrder(kt, bs))
    requires forall k | k in group :: k in Concat(bs)
    ensures InRange(Slots(kt, group), |t|) && InRange(PressedSlots(kt, keys), |t|)
    ensures Contains(MaskOf(t, PressedSlots(kt, keys)), MaskOf(t, Slots(kt, group))) <==> Held(kt, group, keys)
    ensures Overlaps(MaskOf(t, PressedSlots(kt, keys)), MaskOf(t, Slots(kt, group))) <==> AnyHeld(kt, group, keys)
  {
    BoundInOrder(kt, bs, group);
    ChordContained(t, KeyOrder(kt, bs), Slots(kt, group), PressedSlots(kt, keys));
    GroupOverlaps(t, KeyOrder(kt, bs), Slots(kt, group), PressedSlots(kt, keys));
    HeldIffSlots(kt, group, keys);
    AnyHeldIffSlots(kt, group, keys);
  }

  /** A platform key no bound key converts to has a zero table entry. */
  lemma UnboundSlotZero<K(!new)>(kt: KeycodeType<K>, bs: seq<KeyBinding>, t: seq<Mask>, d: K)
    requires ValidKeycodeType(kt) && |t| == kt.numVariants && Laid(t, KeyOrder(kt, bs))
    requires forall k | k in Concat(bs) :: kt.fromKeycode(k) != d
    ensures kt.index(d) < |t| && t[kt.index(d)] == 0
  {
    KeyOrderElems(kt, bs);
    SlotsHave(kt, Concat(bs), d);
    LaidEntry(t, KeyOrder(kt, bs), kt.index(d));
  }

  lemma PressedConcat<K>(kt: KeycodeType<K>, p: seq<K>, q: seq<K>)
    ensures PressedSlots(kt, p + q) == PressedSlots(kt, p) + PressedSlots(kt, q)
  {
    assert forall i | 0 <= i < |p + q| :: PressedSlots(kt, p + q)[i] == (PressedSlots(kt, p) + PressedSlots(kt, q))[i];
  }

  /** A key that no chord uses, down anywhere among the others, leaves the
      snapshot unchanged. */
  lemma UnboundKeyInvisible<K(!new)>(kt: KeycodeType<K>, bs: seq<KeyBinding>, t: seq<Mask>, p: seq<K>, d: K, q: seq<K>)
    requires ValidKeycodeType(kt) && |t| == kt.numVariants && Laid(t, KeyOrder(kt, bs))
    requires forall k | k in Concat(bs) :: kt.fromKeycode(k) != d
    ensures InRange(PressedSlots(kt, p + [d] + q), |t|) && InRange(PressedSlots(kt, p + q), |t|)
    ensures MaskOf(t, PressedSlots(kt, p + [d] + q)) == MaskOf(t, PressedSlots(kt, p + q))
  {
    UnboundSlotZero(kt, bs, t, d);
    PressedConcat(kt, p, [d]);
    PressedConcat(kt, p + [d], q);
    PressedConcat(kt, p, q);
    assert PressedSlots(kt, [d]) == [kt.index(d)];
    UnusedKeyInvisible(t, PressedSlots(kt, p), kt.index(d), PressedSlots(kt, q));
  }

  // ---------------------------------------------------------------------
  // Held-frame counters

  /** A frame counter's `+ 1`, wrapping at 2^32 as unsigned arithmetic in
      a release build does. */
  function Inc(n: u32): (r: u32)
    ensures r as int == (n as int + 1) % U32_LIMIT
  {
    if n as int == U32_LIMIT - 1 then 0 else n + 1
  }

  /** A held-frame counter after one more frame: advanced while its
      category is held, reset otherwise. */
  function Advance(frames: u32, held: bool): (r: u32)
    ensures held ==> r as int == (frames as int + 1) % U32_LIMIT
    ensures !held ==> r == 0
  {
    if held then Inc(frames) else 0
  }

  lemma NoFramesYet(x: u32, n: nat)
    requires n == 0
    ensures x as int == (x as int + n) % U32_LIMIT
  {
  }

  /** One more frame of a counter that has counted `n - 1` frames from
      `start`. */
  lemma CounterStep(before: u32, after: u32, held: bool, start: int, n: nat)
    requires n > 0
    requires after == Advance(before, held)
    requires held ==> before as int == (start + (n - 1)) % U32_LIMIT
    ensures held ==> after as int == (start + n) % U32_LIMIT
    ensures !held ==> after == 0
  {
  }

  /** A counter that, frame after frame, either advances or resets by the
      same rule: after `n` advancing frames it has counted `n` modulo
      2^32, and after any resetting frame it is 0. */
  lemma {:induction false} CountFrames(counts: seq<u32>, held: bool, n: nat)
    requires n < |counts|
    requires forall i | 0 < i <= n :: counts[i] == Advance(counts[i - 1], held)
    ensures held ==> counts[n] as int == (counts[0] as int + n) % U32_LIMIT
    ensures !held && n > 0 ==> counts[n] == 0
  {
    if n == 0 {
      NoFramesYet(counts[0], n);
    } else {
      CountFrames(counts, held, n - 1);
      CounterStep(counts[n - 1], counts[n], held, counts[0] as int, n);
    }
  }

  /** `CountFrames` stated on the first and last counter values by name. */
  lemma CountFramesEnds(counts: seq<u32>, held: bool, n: nat, first: u32, last: u32)
    requires n < |counts| && counts[0] == first && counts[n] == last
    requires forall i | 0 < i <= n :: counts[i] == Advance(counts[i - 1], held)
    ensures held ==> last as int == (first as int + n) % U32_LIMIT
    ensures !held && n > 0 ==> last == 0
  {
    CountFrames(counts, held, n);
  }
}
