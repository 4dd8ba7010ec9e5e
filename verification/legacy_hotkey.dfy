/** The first revision of the hotkey engine: eight actions, a lookup table
    of a fixed 96 entries, and a manager fed the list of keys down
    directly on each frame. Its key type is the generic backend's; the
    slot of a key comes from a numbering this model takes as a parameter,
    a `KeycodeType` with 96 slots. */
module LegacyHotkey {
  import opened Wrappers
  import opened Ints
  import Keycodes
  import opened Bitmask
  import opened KeyChords

  /** Entries in the lookup table: one per key the backend can report. */
  const KEYCODE_LENGTH: nat := 96

  /** A key numbering this revision can use: a valid key type with exactly
      the table's 96 slots. */
  ghost predicate LegacyKeycodeType<K(!new)>(kt: KeycodeType<K>)
  {
    ValidKeycodeType(kt) && kt.numVariants == KEYCODE_LENGTH
  }

  /** The eight actions, in the order the bindings are declared and
      registered. */
  datatype Action =
    | Up | Down | Left | Right | ScaleIncrease | ScaleDecrease | ToggleHidden | ToggleAdjust
  {
    function Ordinal(): (n: nat)
      ensures n < 8
    {
      match this
      case Up => 0
      case Down => 1
      case Left => 2
      case Right => 3
      case ScaleIncrease => 4
      case ScaleDecrease => 5
      case ToggleHidden => 6
      case ToggleAdjust => 7
    }

    predicate IsMovement() { Up? || Down? || Left? || Right? }

    predicate IsScale() { ScaleIncrease? || ScaleDecrease? }

    predicate IsToggle() { ToggleHidden? || ToggleAdjust? }
  }

  datatype KeyBindings = KeyBindings(
    up: KeyBinding,
    down: KeyBinding,
    left: KeyBinding,
    right: KeyBinding,
    scaleIncrease: KeyBinding,
    scaleDecrease: KeyBinding,
    toggleHidden: KeyBinding,
    toggleAdjust: KeyBinding)

  /** Arrow keys move, Page Up/Down scale, and Left Control with H or J
      toggles hiding or adjust mode: every movement and scale action is one
      key, both toggles are Left Control and one more key, and no two
      actions share a chord. */
  function DefaultKeyBindings(): (b: KeyBindings)
    ensures forall a: Action | a.IsMovement() || a.IsScale() :: |Binding(b, a)| == 1
    ensures forall a: Action | a.IsToggle() :: |Binding(b, a)| == 2 && Binding(b, a)[0] == Keycodes.LControl
    ensures forall a: Action, a': Action | a != a' :: Binding(b, a) != Binding(b, a')
  {
    KeyBindings(
      [Keycodes.Up], [Keycodes.Down], [Keycodes.Left], [Keycodes.Right],
      [Keycodes.PageUp], [Keycodes.PageDown],
      [Keycodes.LControl, Keycodes.H],
      [Keycodes.LControl, Keycodes.J])
  }

  function Binding(b: KeyBindings, a: Action): KeyBinding
  {
    match a
    case Up => b.up
    case Down => b.down
    case Left => b.left
    case Right => b.right
    case ScaleIncrease => b.scaleIncrease
    case ScaleDecrease => b.scaleDecrease
    case ToggleHidden => b.toggleHidden
    case ToggleAdjust => b.toggleAdjust
  }

  /** The eight bindings in registration order. */
  function Bindings(b: KeyBindings): (r: seq<KeyBinding>)
    ensures |r| == 8
    ensures forall a: Action :: r[a.Ordinal()] == Binding(b, a)
  {
    [b.up, b.down, b.left, b.right, b.scaleIncrease, b.scaleDecrease, b.toggleHidden, b.toggleAdjust]
  }

  function BoundKeys(b: KeyBindings): KeyBinding
  {
    Concat(Bindings(b))
  }

  lemma BindingBound(b: KeyBindings, a: Action)
    ensures forall k | k in Binding(b, a) :: k in BoundKeys(b)
  {
    MemberBound(Bindings(b), a.Ordinal());
  }

  function MovementKeys(b: KeyBindings): KeyBinding
  {
    b.up + b.down + b.left + b.right
  }

  function ScaleKeys(b: KeyBindings): KeyBinding
  {
    b.scaleIncrease + b.scaleDecrease
  }

  // ---------------------------------------------------------------------
  // Key buffer

  datatype KeyBuffer<!K> = KeyBuffer(
    lookupTable: seq<Mask>,
    upMask: Mask,
    downMask: Mask,
    leftMask: Mask,
    rightMask: Mask,
    scaleIncreaseMask: Mask,
    scaleDecreaseMask: Mask,
    toggleHiddenMask: Mask,
    toggleAdjustMask: Mask,
    anyMovementMask: Mask,
    anyScaleMask: Mask,
    keycodeType: KeycodeType<K>)

  ghost predicate ValidBuffer<K(!new)>(kb: KeyBuffer<K>)
  {
    ValidKeycodeType(kb.keycodeType) && |kb.lookupTable| == kb.keycodeType.numVariants
  }

  function ActionMask<K>(kb: KeyBuffer<K>, a: Action): Mask
  {
    match a
    case Up => kb.upMask
    case Down => kb.downMask
    case Left => kb.leftMask
    case Right => kb.rightMask
    case ScaleIncrease => kb.scaleIncreaseMask
    case ScaleDecrease => kb.scaleDecreaseMask
    case ToggleHidden => kb.toggleHiddenMask
    case ToggleAdjust => kb.toggleAdjustMask
  }

  /** The key buffer for a compilation of the eight chords. */
  function BufferOf<K>(kt: KeycodeType<K>, c: Compiled): KeyBuffer<K>
    requires |c.masks| == 8
  {
    var m := c.masks;
    KeyBuffer(c.assignment.table, m[0], m[1], m[2], m[3], m[4], m[5], m[6], m[7],
              Join(Join(Join(m[0], m[1]), m[2]), m[3]), Join(m[4], m[5]), kt)
  }

  /** Build the key buffer: register the eight chords in declaration order
      into a zeroed 96-entry table, stopping at the first that needs a 33rd
      key. */
  function NewKeyBuffer<K(!new)>(kt: KeycodeType<K>, b: KeyBindings): (r: Result<KeyBuffer<K>, string>)
    requires LegacyKeycodeType(kt)
    ensures r.Success? ==> ValidBuffer(r.value) && |r.value.lookupTable| == KEYCODE_LENGTH
    ensures r.Failure? ==> r.error == TOO_MANY_KEYS
  {
    var c :- Compile(kt, Bindings(b));
    Success(BufferOf(kt, c))
  }

  /** The key buffer is accepted exactly when the bindings use at most 32
      distinct keys. */
  lemma KeyBufferAccepts<K(!new)>(kt: KeycodeType<K>, b: KeyBindings)
    requires LegacyKeycodeType(kt)
    ensures NewKeyBuffer(kt, b).Success? <==> |KeyOrder(kt, Bindings(b))| <= 32
    ensures NewKeyBuffer(kt, b).Failure? ==> NewKeyBuffer(kt, b).error == TOO_MANY_KEYS
  {
    CompileAccepts(kt, Bindings(b));
  }

  lemma FewKeysAccepted<K(!new)>(kt: KeycodeType<K>, b: KeyBindings)
    requires LegacyKeycodeType(kt) && |BoundKeys(b)| <= 32
    ensures NewKeyBuffer(kt, b).Success?
  {
    FewKeysCompile(kt, Bindings(b));
  }

  lemma MaskAtOrdinal<K>(kt: KeycodeType<K>, c: Compiled, a: Action)
    requires |c.masks| == 8
    ensures ActionMask(BufferOf(kt, c), a) == c.masks[a.Ordinal()]
  {
  }

  /** An accepted key buffer is laid out for its bindings: bits in
      first-seen key order, each action's mask the OR of its keys' bits,
      and each category mask the OR of the bits of its keys. */
  lemma BufferLaidOut<K(!new)>(kt: KeycodeType<K>, b: KeyBindings, kb: KeyBuffer<K>)
    requires LegacyKeycodeType(kt) && NewKeyBuffer(kt, b) == Success(kb)
    ensures ValidBuffer(kb) && kb.keycodeType == kt
    ensures Laid(kb.lookupTable, KeyOrder(kt, Bindings(b)))
    ensures forall a: Action :: InRange(Slots(kt, Binding(b, a)), |kb.lookupTable|)
    ensures forall a: Action :: ActionMask(kb, a) == MaskOf(kb.lookupTable, Slots(kt, Binding(b, a)))
    ensures InRange(Slots(kt, MovementKeys(b)), |kb.lookupTable|)
    ensures kb.anyMovementMask == MaskOf(kb.lookupTable, Slots(kt, MovementKeys(b)))
    ensures InRange(Slots(kt, ScaleKeys(b)), |kb.lookupTable|)
    ensures kb.anyScaleMask == MaskOf(kb.lookupTable, Slots(kt, ScaleKeys(b)))
  {
    var c := Compile(kt, Bindings(b)).value;
    assert kb == BufferOf(kt, c);
    CompileLaid(kt, Bindings(b), c);
    ActionMasksLaid(kt, b, c);
    CategoryMasksLaid(kt, b, c);
  }

  /** Each action's mask in a compiled buffer is the OR of its keys' entries. */
  lemma ActionMasksLaid<K(!new)>(kt: KeycodeType<K>, b: KeyBindings, c: Compiled)
    requires LegacyKeycodeType(kt) && Compile(kt, Bindings(b)) == Success(c)
    ensures |c.masks| == 8
    ensures forall a: Action :: InRange(Slots(kt, Binding(b, a)), |c.assignment.table|)
    ensures forall a: Action :: ActionMask(BufferOf(kt, c), a) == MaskOf(c.assignment.table, Slots(kt, Binding(b, a)))
  {
    CompileLaid(kt, Bindings(b), c);
    forall a: Action
      ensures InRange(Slots(kt, Binding(b, a)), |c.assignment.table|)
      ensures ActionMask(BufferOf(kt, c), a) == MaskOf(c.assignment.table, Slots(kt, Binding(b, a)))
    {
      MaskAtOrdinal(kt, c, a);
    }
  }

  /** The category masks of a compiled buffer are the ORs of the entries of
      the categories' keys. */
  lemma CategoryMasksLaid<K(!new)>(kt: KeycodeType<K>, b: KeyBindings, c: Compiled)
    requires LegacyKeycodeType(kt) && Compile(kt, Bindings(b)) == Success(c)
    ensures |c.masks| == 8 && |c.assignment.table| == kt.numVariants
    ensures InRange(Slots(kt, MovementKeys(b)), |c.assignment.table|)
    ensures BufferOf(kt, c).anyMovementMask == MaskOf(c.assignment.table, Slots(kt, MovementKeys(b)))
    ensures InRange(Slots(kt, ScaleKeys(b)), |c.assignment.table|)
    ensures BufferOf(kt, c).anyScaleMask == MaskOf(c.assignment.table, Slots(kt, ScaleKeys(b)))
  {
    CompileLaid(kt, Bindings(b), c);
    var t := c.assignment.table;
    JoinSlots(kt, t, b.up, b.down);
    JoinSlots(kt, t, b.up + b.down, b.left);
    JoinSlots(kt, t, b.up + b.down + b.left, b.right);
    JoinSlots(kt, t, b.scaleIncrease, b.scaleDecrease);
  }

  // ---------------------------------------------------------------------
  // Keys down

  /** The mask of the keys down: the OR of their table entries. */
  function Snapshot<K(!new)>(kb: KeyBuffer<K>, keys: seq<K>): Mask
    requires ValidBuffer(kb)
  {
    MaskOf(kb.lookupTable, PressedSlots(kb.keycodeType, keys))
  }

  predicate Active<K>(kb: KeyBuffer<K>, a: Action, buf: Mask)
  {
    Contains(buf, ActionMask(kb, a))
  }

  /** An action is active in the snapshot of the keys down exactly when its
      whole chord is down. */
  lemma ActiveIffHeld<K(!new)>(kt: KeycodeType<K>, b: KeyBindings, kb: KeyBuffer<K>, keys: seq<K>, a: Action)
    requires LegacyKeycodeType(kt) && NewKeyBuffer(kt, b) == Success(kb)
    ensures ValidBuffer(kb)
    ensures Active(kb, a, Snapshot(kb, keys)) <==> Held(kt, Binding(b, a), keys)
  {
    BufferLaidOut(kt, b, kb);
    BindingBound(b, a);
    SnapshotIffHeld(kt, Bindings(b), kb.lookupTable, Binding(b, a), keys);
  }

  lemma CategoriesBound(b: KeyBindings)
    ensures forall k | k in MovementKeys(b) :: k in BoundKeys(b)
    ensures forall k | k in ScaleKeys(b) :: k in BoundKeys(b)
  {
    BindingBound(b, Up);
    BindingBound(b, Down);
    BindingBound(b, Left);
    BindingBound(b, Right);
    BindingBound(b, ScaleIncrease);
    BindingBound(b, ScaleDecrease);
  }

  /** The movement category is active exactly when some movement key is
      down, and likewise for scaling. */
  lemma CategoriesIffAnyHeld<K(!new)>(kt: KeycodeType<K>, b: KeyBindings, kb: KeyBuffer<K>, keys: seq<K>)
    requires LegacyKeycodeType(kt) && NewKeyBuffer(kt, b) == Success(kb)
    ensures ValidBuffer(kb)
    ensures Overlaps(Snapshot(kb, keys), kb.anyMovementMask) <==> AnyHeld(kt, MovementKeys(b), keys)
    ensures Overlaps(Snapshot(kb, keys), kb.anyScaleMask) <==> AnyHeld(kt, ScaleKeys(b), keys)
  {
    BufferLaidOut(kt, b, kb);
    CategoriesBound(b);
    SnapshotIffHeld(kt, Bindings(b), kb.lookupTable, MovementKeys(b), keys);
    SnapshotIffHeld(kt, Bindings(b), kb.lookupTable, ScaleKeys(b), keys);
  }

  // ---------------------------------------------------------------------
  // Manager

  datatype HotkeyManager<!K> = HotkeyManager(
    previousState: Mask,
    state: Mask,
    movementKeyHeldFrames: u32,
    scaleKeyHeldFrames: u32,
    keyBuffer: KeyBuffer<K>)

  /** A fresh manager: both snapshots and both counters zero; fails when
      the key buffer does. */
  function New<K(!new)>(kt: KeycodeType<K>, b: KeyBindings): (r: Result<HotkeyManager<K>, string>)
    requires LegacyKeycodeType(kt)
    ensures r.Success? <==> NewKeyBuffer(kt, b).Success?
    ensures r.Success? ==> r.value.keyBuffer == NewKeyBuffer(kt, b).value
    ensures r.Success? ==> r.value.previousState == 0 && r.value.state == 0
    ensures r.Success? ==> r.value.movementKeyHeldFrames == 0 && r.value.scaleKeyHeldFrames == 0
    ensures r.Failure? ==> r.error == TOO_MANY_KEYS
  {
    var kb :- NewKeyBuffer(kt, b);
    Success(HotkeyManager(0, 0, 0, 0, kb))
  }

  /** One frame, given the keys down: the state becomes the previous
      state, the keys give the new one, and each category's counter counts
      up while any key of it is down and resets otherwise. */
  function ProcessKeys<K(!new)>(m: HotkeyManager<K>, keys: seq<K>): (r: HotkeyManager<K>)
    requires ValidBuffer(m.keyBuffer)
    ensures r.keyBuffer == m.keyBuffer && r.previousState == m.state
    ensures r.state == Snapshot(m.keyBuffer, keys)
    ensures Overlaps(r.state, m.keyBuffer.anyMovementMask) ==>
              r.movementKeyHeldFrames as int == (m.movementKeyHeldFrames as int + 1) % U32_LIMIT
    ensures !Overlaps(r.state, m.keyBuffer.anyMovementMask) ==> r.movementKeyHeldFrames == 0
    ensures Overlaps(r.state, m.keyBuffer.anyScaleMask) ==>
              r.scaleKeyHeldFrames as int == (m.scaleKeyHeldFrames as int + 1) % U32_LIMIT
    ensures !Overlaps(r.state, m.keyBuffer.anyScaleMask) ==> r.scaleKeyHeldFrames == 0
  {
    var kb := m.keyBuffer;
    var current := Snapshot(kb, keys);
    m.(previousState := m.state,
       state := current,
       movementKeyHeldFrames := Advance(m.movementKeyHeldFrames, Overlaps(current, kb.anyMovementMask)),
       scaleKeyHeldFrames := Advance(m.scaleKeyHeldFrames, Overlaps(current, kb.anyScaleMask)))
  }

  /** A toggle's chord went down between the previous frame and this one. */
  predicate JustPressed<K>(m: HotkeyManager<K>, a: Action)
    requires a.IsToggle()
    ensures JustPressed(m, a) ==> m.previousState != m.state
    ensures ActionMask(m.keyBuffer, a) == 0 ==> !JustPressed(m, a)
  {
    !Active(m.keyBuffer, a, m.previousState) && Active(m.keyBuffer, a, m.state)
  }

  /** The speed curve of a held movement key: 1, then 4 from frame 10, 16
      from frame 20, 32 from frame 40 and 64 from frame 60. */
  function MoveRamp(frames: u32): (r: u32)
    ensures r in {1, 4, 16, 32, 64}
  {
    if frames < 10 then 1
    else if frames < 20 then 4
    else if frames < 40 then 16
    else if frames < 60 then 32
    else 64
  }

  /** The speed curve of a held scale key, written separately. */
  function ScaleRamp(frames: u32): (r: u32)
    ensures r == MoveRamp(frames)
  {
    if frames < 10 then 1
    else if frames < 20 then 4
    else if frames < 40 then 16
    else if frames < 60 then 32
    else 64
  }

  function Amount<K>(m: HotkeyManager<K>, a: Action): (r: u32)
    requires a.IsMovement() || a.IsScale()
    ensures r <= 64
    ensures r == 0 <==> !Active(m.keyBuffer, a, m.state)
  {
    if !Active(m.keyBuffer, a, m.state) then 0
    else if a.IsMovement() then MoveRamp(m.movementKeyHeldFrames)
    else ScaleRamp(m.scaleKeyHeldFrames)
  }

  // ---------------------------------------------------------------------
  // Frame behaviour

  /** What one frame does to the counters. */
  lemma ProcessCounters<K(!new)>(kt: KeycodeType<K>, b: KeyBindings, m: HotkeyManager<K>, keys: seq<K>)
    requires LegacyKeycodeType(kt) && NewKeyBuffer(kt, b) == Success(m.keyBuffer)
    ensures ValidBuffer(m.keyBuffer)
    ensures ProcessKeys(m, keys).keyBuffer == m.keyBuffer
    ensures ProcessKeys(m, keys).previousState == m.state
    ensures ProcessKeys(m, keys).movementKeyHeldFrames
         == Advance(m.movementKeyHeldFrames, AnyHeld(kt, MovementKeys(b), keys))
    ensures ProcessKeys(m, keys).scaleKeyHeldFrames
         == Advance(m.scaleKeyHeldFrames, AnyHeld(kt, ScaleKeys(b), keys))
  {
    CategoriesIffAnyHeld(kt, b, m.keyBuffer, keys);
  }

  /** What one frame does to the snapshots: every action is active in the
      new state exactly when its chord is down. */
  lemma ProcessActive<K(!new)>(kt: KeycodeType<K>, b: KeyBindings, m: HotkeyManager<K>, keys: seq<K>)
    requires LegacyKeycodeType(kt) && NewKeyBuffer(kt, b) == Success(m.keyBuffer)
    ensures ValidBuffer(m.keyBuffer)
    ensures ProcessKeys(m, keys).keyBuffer == m.keyBuffer
    ensures ProcessKeys(m, keys).previousState == m.state
    ensures forall a: Action :: Active(m.keyBuffer, a, ProcessKeys(m, keys).state) <==> Held(kt, Binding(b, a), keys)
  {
    var kb := m.keyBuffer;
    assert ValidBuffer(kb);
    forall a: Action
      ensures Active(kb, a, Snapshot(kb, keys)) <==> Held(kt, Binding(b, a), keys)
    {
      ActiveIffHeld(kt, b, kb, keys, a);
    }
  }

  /** A toggle fires on the frame its chord goes down. */
  lemma ToggleIffPressedNow<K(!new)>(kt: KeycodeType<K>, b: KeyBindings, m: HotkeyManager<K>, before: seq<K>, now: seq<K>, a: Action)
    requires LegacyKeycodeType(kt) && NewKeyBuffer(kt, b) == Success(m.keyBuffer) && a.IsToggle()
    ensures ValidBuffer(m.keyBuffer)
    ensures JustPressed(ProcessKeys(ProcessKeys(m, before), now), a)
        <==> !Held(kt, Binding(b, a), before) && Held(kt, Binding(b, a), now)
  {
    ProcessActive(kt, b, m, before);
    ProcessActive(kt, b, ProcessKeys(m, before), now);
  }

  /** The same keys on a second frame never fire a toggle again. */
  lemma ToggleFiresOnce<K(!new)>(m: HotkeyManager<K>, keys: seq<K>, a: Action)
    requires ValidBuffer(m.keyBuffer) && a.IsToggle()
    ensures !JustPressed(ProcessKeys(ProcessKeys(m, keys), keys), a)
  {
  }

  /** A movement or scale action asks for its ramp at the updated counter
      of its category while its chord is down, and for 0 otherwise. */
  lemma AmountAfterProcess<K(!new)>(kt: KeycodeType<K>, b: KeyBindings, m: HotkeyManager<K>, keys: seq<K>, a: Action)
    requires LegacyKeycodeType(kt) && NewKeyBuffer(kt, b) == Success(m.keyBuffer)
    requires a.IsMovement() || a.IsScale()
    ensures ValidBuffer(m.keyBuffer)
    ensures Amount(ProcessKeys(m, keys), a)
         == if !Held(kt, Binding(b, a), keys) then 0
            else if a.IsMovement() then MoveRamp(Advance(m.movementKeyHeldFrames, AnyHeld(kt, MovementKeys(b), keys)))
            else ScaleRamp(Advance(m.scaleKeyHeldFrames, AnyHeld(kt, ScaleKeys(b), keys)))
  {
    ProcessActive(kt, b, m, keys);
    ProcessCounters(kt, b, m, keys);
  }

  /** While an action's chord is down it always moves or scales by at
      least 1. */
  lemma HeldChordMoves<K(!new)>(kt: KeycodeType<K>, b: KeyBindings, m: HotkeyManager<K>, keys: seq<K>, a: Action)
    requires LegacyKeycodeType(kt) && NewKeyBuffer(kt, b) == Success(m.keyBuffer)
    requires a.IsMovement() || a.IsScale()
    ensures ValidBuffer(m.keyBuffer)
    ensures Amount(ProcessKeys(m, keys), a) >= 1 <==> Held(kt, Binding(b, a), keys)
  {
    AmountAfterProcess(kt, b, m, keys, a);
    var moved := Advance(m.movementKeyHeldFrames, AnyHeld(kt, MovementKeys(b), keys));
    var scaled := Advance(m.scaleKeyHeldFrames, AnyHeld(kt, ScaleKeys(b), keys));
    RampShape(moved, moved);
    RampShape(scaled, scaled);
    ScaleRampIsMoveRamp(scaled);
  }

  /** A key no binding uses, down or not, changes nothing. */
  lemma UnboundKeyIgnored<K(!new)>(kt: KeycodeType<K>, b: KeyBindings, m: HotkeyManager<K>, p: seq<K>, d: K, q: seq<K>)
    requires LegacyKeycodeType(kt) && NewKeyBuffer(kt, b) == Success(m.keyBuffer)
    requires forall k | k in BoundKeys(b) :: kt.fromKeycode(k) != d
    ensures ValidBuffer(m.keyBuffer)
    ensures ProcessKeys(m, p + [d] + q) == ProcessKeys(m, p + q)
  {
    BufferLaidOut(kt, b, m.keyBuffer);
    UnboundKeyInvisible(kt, Bindings(b), m.keyBuffer.lookupTable, p, d, q);
  }

  // ---------------------------------------------------------------------
  // Holding keys

  /** The manager after `n` frames with the same keys down. */
  function Repeat<K(!new)>(m: HotkeyManager<K>, keys: seq<K>, n: nat): (r: HotkeyManager<K>)
    requires ValidBuffer(m.keyBuffer)
    ensures r.keyBuffer == m.keyBuffer
  {
    if n == 0 then m else ProcessKeys(Repeat(m, keys, n - 1), keys)
  }

  datatype Category = Movement | Scale

  function CategoryKeys(b: KeyBindings, c: Category): KeyBinding
  {
    match c
    case Movement => MovementKeys(b)
    case Scale => ScaleKeys(b)
  }

  function CategoryMask<K>(kb: KeyBuffer<K>, c: Category): Mask
  {
    match c
    case Movement => kb.anyMovementMask
    case Scale => kb.anyScaleMask
  }

  function HeldFrames<K>(m: HotkeyManager<K>, c: Category): u32
  {
    match c
    case Movement => m.movementKeyHeldFrames
    case Scale => m.scaleKeyHeldFrames
  }

  predicate CategoryHeld<K(!new)>(m: HotkeyManager<K>, keys: seq<K>, c: Category)
    requires ValidBuffer(m.keyBuffer)
  {
    Overlaps(Snapshot(m.keyBuffer, keys), CategoryMask(m.keyBuffer, c))
  }

  /** Holding the same keys for `n` frames counts the frames, modulo 2^32,
      in a category with a key down, and leaves the counter at 0 in a
      category with none. */
  lemma HoldCounts<K(!new)>(kt: KeycodeType<K>, b: KeyBindings, m: HotkeyManager<K>, keys: seq<K>, n: nat, c: Category)
    requires LegacyKeycodeType(kt) && NewKeyBuffer(kt, b) == Success(m.keyBuffer)
    ensures ValidBuffer(m.keyBuffer)
    ensures AnyHeld(kt, CategoryKeys(b, c), keys) ==>
              HeldFrames(Repeat(m, keys, n), c) as int == (HeldFrames(m, c) as int + n) % U32_LIMIT
    ensures !AnyHeld(kt, CategoryKeys(b, c), keys) && n > 0 ==> HeldFrames(Repeat(m, keys, n), c) == 0
  {
    CategoriesIffAnyHeld(kt, b, m.keyBuffer, keys);
    HoldCountsByMask(m, keys, n, c);
  }

  lemma HoldCountsByMask<K(!new)>(m: HotkeyManager<K>, keys: seq<K>, n: nat, c: Category)
    requires ValidBuffer(m.keyBuffer)
    ensures CategoryHeld(m, keys, c) ==>
              HeldFrames(Repeat(m, keys, n), c) as int == (HeldFrames(m, c) as int + n) % U32_LIMIT
    ensures !CategoryHeld(m, keys, c) && n > 0 ==> HeldFrames(Repeat(m, keys, n), c) == 0
  {
    var counts := CounterSteps(m, keys, n, c);
    CountFramesEnds(counts, CategoryHeld(m, keys, c), n, HeldFrames(m, c), HeldFrames(Repeat(m, keys, n), c));
  }

  /** One category's counter over the first `n` frames of holding the
      same keys, from the manager's own value to the value after `n`
      frames. */
  function CounterTrace<K(!new)>(m: HotkeyManager<K>, keys: seq<K>, n: nat, c: Category): (r: seq<u32>)
    requires ValidBuffer(m.keyBuffer)
    ensures |r| == n + 1 && r[0] == HeldFrames(m, c) && r[n] == HeldFrames(Repeat(m, keys, n), c)
    ensures forall i | 0 <= i <= n :: r[i] == HeldFrames(Repeat(m, keys, i), c)
  {
    seq(n + 1, i requires 0 <= i <= n => HeldFrames(Repeat(m, keys, i), c))
  }

  /** The trace of one category's counter over `n` frames, in which
      each frame advances or resets the counter by the counter's mask
      test. */
  lemma CounterSteps<K(!new)>(m: HotkeyManager<K>, keys: seq<K>, n: nat, c: Category) returns (counts: seq<u32>)
    requires ValidBuffer(m.keyBuffer)
    ensures |counts| == n + 1 && counts[0] == HeldFrames(m, c) && counts[n] == HeldFrames(Repeat(m, keys, n), c)
    ensures forall i | 0 < i <= n :: counts[i] == Advance(counts[i - 1], CategoryHeld(m, keys, c))
  {
    counts := CounterTrace(m, keys, n, c);
    forall i | 0 < i <= n
      ensures counts[i] == Advance(counts[i - 1], CategoryHeld(m, keys, c))
    {
      RepeatStep(m, keys, i, c, Repeat(m, keys, i - 1));
    }
  }

  lemma RepeatStep<K(!new)>(m: HotkeyManager<K>, keys: seq<K>, n: nat, c: Category, prior: HotkeyManager<K>)
    requires ValidBuffer(m.keyBuffer)
    requires n > 0 && prior == Repeat(m, keys, n - 1)
    ensures HeldFrames(Repeat(m, keys, n), c) == Advance(HeldFrames(prior, c), CategoryHeld(m, keys, c))
  {
    assert Repeat(m, keys, n) == ProcessKeys(prior, keys);
  }

  // ---------------------------------------------------------------------
  // Ramps

  /** The ramp takes only the values 1, 4, 16, 32 and 64, each on the
      frames listed: 1 for frames 0 to 9, 4 for 10 to 19, 16 for 20 to 39,
      32 for 40 to 59 and 64 from frame 60 on. It is never 0 and never
      slows down as the frames go up. */
  lemma RampShape(j: u32, k: u32)
    ensures MoveRamp(j) in {1, 4, 16, 32, 64}
    ensures MoveRamp(j) == 1 <==> j < 10
    ensures MoveRamp(j) == 4 <==> 10 <= j < 20
    ensures MoveRamp(j) == 16 <==> 20 <= j < 40
    ensures MoveRamp(j) == 32 <==> 40 <= j < 60
    ensures MoveRamp(j) == 64 <==> 60 <= j
    ensures MoveRamp(j) != 0
    ensures j <= k ==> MoveRamp(j) <= MoveRamp(k)
  {
  }

  lemma ScaleRampIsMoveRamp(frames: u32)
    ensures ScaleRamp(frames) == MoveRamp(frames)
  {
  }

  // ---------------------------------------------------------------------
  // Defaults

  /** The default bindings are accepted by every 96-slot key numbering. */
  lemma DefaultsAccepted<K(!new)>(kt: KeycodeType<K>)
    requires LegacyKeycodeType(kt)
    ensures |BoundKeys(DefaultKeyBindings())| == 10
    ensures NewKeyBuffer(kt, DefaultKeyBindings()).Success?
  {
    var b := DefaultKeyBindings();
    assert |BoundKeys(b)| == 10;
    FewKeysAccepted(kt, b);
  }

  /** The manager built from the default bindings; building it cannot
      fail. */
  function DefaultHotkeyManager<K(!new)>(kt: KeycodeType<K>): (m: HotkeyManager<K>)
    requires LegacyKeycodeType(kt)
    ensures NewKeyBuffer(kt, DefaultKeyBindings()) == Success(m.keyBuffer)
    ensures m.previousState == 0 && m.state == 0
    ensures m.movementKeyHeldFrames == 0 && m.scaleKeyHeldFrames == 0
  {
    DefaultsAccepted(kt);
    New(kt, DefaultKeyBindings()).value
  }
}
