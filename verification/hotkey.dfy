/** The hotkey engine of the library crate: the user's key bindings, the
    bitmask key buffer compiled from them, and the per-frame manager that
    turns the keys reported down into edge-triggered toggles and ramped
    movement and scaling steps. Like the program, the engine is generic in
    the platform's key type `K`, described by a `KeycodeType<K>`; the
    generic backend's instance is `DeviceQueryKeycodeType`. */
module Hotkey {
  import opened Wrappers
  import opened Ints
  import Keycodes
  import opened DeviceQuery
  import opened Bitmask
  import opened KeyChords

  /** The ten actions a binding can trigger, in the order the bindings are
      declared and registered. */
  datatype Action =
    | Up | Down | Left | Right | CycleMonitor | ScaleIncrease | ScaleDecrease
    | ToggleHidden | ToggleAdjust | ToggleColorPicker
  {
    /** Position of the action's binding in declaration order. */
    function Ordinal(): (n: nat)
      ensures n < 10
    {
      match this
      case Up => 0
      case Down => 1
      case Left => 2
      case Right => 3
      case CycleMonitor => 4
      case ScaleIncrease => 5
      case ScaleDecrease => 6
      case ToggleHidden => 7
      case ToggleAdjust => 8
      case ToggleColorPicker => 9
    }

    predicate IsMovement() { Up? || Down? || Left? || Right? }

    predicate IsScale() { ScaleIncrease? || ScaleDecrease? }

    /** The actions reported once per press rather than every frame. */
    predicate IsToggle() { CycleMonitor? || ToggleHidden? || ToggleAdjust? || ToggleColorPicker? }
  }

  datatype KeyBindings = KeyBindings(
    up: KeyBinding,
    down: KeyBinding,
    left: KeyBinding,
    right: KeyBinding,
    cycleMonitor: KeyBinding,
    scaleIncrease: KeyBinding,
    scaleDecrease: KeyBinding,
    toggleHidden: KeyBinding,
    toggleAdjust: KeyBinding,
    toggleColorPicker: KeyBinding)

  /** Arrow keys move, Page Up/Down scale, and Left Control with M, H, J or
      K cycles the monitor or toggles hiding, adjust mode or the colour
      picker: every movement and scale action is one key, every toggle is
      Left Control and one more key, and no two actions share a chord. */
  function DefaultKeyBindings(): (b: KeyBindings)
    ensures forall a: Action | a.IsMovement() || a.IsScale() :: |Binding(b, a)| == 1
    ensures forall a: Action | a.IsToggle() :: |Binding(b, a)| == 2 && Binding(b, a)[0] == Keycodes.LControl
    ensures forall a: Action, a': Action | a != a' :: Binding(b, a) != Binding(b, a')
  {
    KeyBindings(
      [Keycodes.Up], [Keycodes.Down], [Keycodes.Left], [Keycodes.Right],
      [Keycodes.LControl, Keycodes.M],
      [Keycodes.PageUp], [Keycodes.PageDown],
      [Keycodes.LControl, Keycodes.H],
      [Keycodes.LControl, Keycodes.J],
      [Keycodes.LControl, Keycodes.K])
  }

  function Binding(b: KeyBindings, a: Action): KeyBinding
  {
    match a
    case Up => b.up
    case Down => b.down
    case Left => b.left
    case Right => b.right
    case CycleMonitor => b.cycleMonitor
    case ScaleIncrease => b.scaleIncrease
    case ScaleDecrease => b.scaleDecrease
    case ToggleHidden => b.toggleHidden
    case ToggleAdjust => b.toggleAdjust
    case ToggleColorPicker => b.toggleColorPicker
  }

  // ---------------------------------------------------------------------
  // Reading bindings from a settings file

  /** A key-bindings record as it appears in a settings file, where any
      field may be absent. */
  datatype StoredKeyBindings = StoredKeyBindings(
    up: Option<KeyBinding>,
    down: Option<KeyBinding>,
    left: Option<KeyBinding>,
    right: Option<KeyBinding>,
    cycleMonitor: Option<KeyBinding>,
    scaleIncrease: Option<KeyBinding>,
    scaleDecrease: Option<KeyBinding>,
    toggleHidden: Option<KeyBinding>,
    toggleAdjust: Option<KeyBinding>,
    toggleColorPicker: Option<KeyBinding>)

  function MissingField(name: string): string
  {
    "missing field `" + name + "`"
  }

  function Required(v: Option<KeyBinding>, name: string): Result<KeyBinding, string>
  {
    if v.Some? then Success(v.value) else Failure(MissingField(name))
  }

  function Defaulted(v: Option<KeyBinding>, default: KeyBinding): KeyBinding
  {
    if v.Some? then v.value else default
  }

  /** Every field without a default is present. */
  predicate HasRequired(s: StoredKeyBindings)
  {
    && s.up.Some? && s.down.Some? && s.left.Some? && s.right.Some?
    && s.scaleIncrease.Some? && s.scaleDecrease.Some?
    && s.toggleHidden.Some? && s.toggleAdjust.Some?
  }

  /** Decode a stored record. `cycle_monitor` and `toggle_color_picker`,
      added after the first release, fall back to their default chords;
      any other absent field is an error naming the first one missing in
      declaration order. */
  function ReadKeyBindings(s: StoredKeyBindings): (r: Result<KeyBindings, string>)
    ensures r.Success? <==> HasRequired(s)
    ensures r.Success? ==> r.value.cycleMonitor == Defaulted(s.cycleMonitor, DefaultKeyBindings().cycleMonitor)
    ensures r.Success? ==> r.value.toggleColorPicker == Defaulted(s.toggleColorPicker, DefaultKeyBindings().toggleColorPicker)
  {
    var up :- Required(s.up, "up");
    var down :- Required(s.down, "down");
    var left :- Required(s.left, "left");
    var right :- Required(s.right, "right");
    var cycleMonitor := Defaulted(s.cycleMonitor, DefaultKeyBindings().cycleMonitor);
    var scaleIncrease :- Required(s.scaleIncrease, "scale_increase");
    var scaleDecrease :- Required(s.scaleDecrease, "scale_decrease");
    var toggleHidden :- Required(s.toggleHidden, "toggle_hidden");
    var toggleAdjust :- Required(s.toggleAdjust, "toggle_adjust");
    var toggleColorPicker := Defaulted(s.toggleColorPicker, DefaultKeyBindings().toggleColorPicker);
    Success(KeyBindings(up, down, left, right, cycleMonitor, scaleIncrease, scaleDecrease,
                        toggleHidden, toggleAdjust, toggleColorPicker))
  }

  /** Encode bindings as a stored record: every field is written. */
  function WriteKeyBindings(b: KeyBindings): (s: StoredKeyBindings)
    ensures HasRequired(s) && s.cycleMonitor.Some? && s.toggleColorPicker.Some?
  {
    StoredKeyBindings(Some(b.up), Some(b.down), Some(b.left), Some(b.right), Some(b.cycleMonitor),
                      Some(b.scaleIncrease), Some(b.scaleDecrease), Some(b.toggleHidden),
                      Some(b.toggleAdjust), Some(b.toggleColorPicker))
  }

  /** Writing then reading gives the bindings back. */
  lemma ReadWrite(b: KeyBindings)
    ensures ReadKeyBindings(WriteKeyBindings(b)) == Success(b)
  {
  }

  /** A record written before the two newer actions existed still reads,
      with those two actions on their default chords. */
  lemma OlderRecordReads(b: KeyBindings)
    ensures ReadKeyBindings(WriteKeyBindings(b).(cycleMonitor := None, toggleColorPicker := None))
         == Success(b.(cycleMonitor := DefaultKeyBindings().cycleMonitor,
                        toggleColorPicker := DefaultKeyBindings().toggleColorPicker))
  {
  }

  /** A record without `up` is rejected with an error naming that field,
      and one with the movement fields but without `scale_increase` with
      an error naming that one. */
  lemma MissingFieldNamed(s: StoredKeyBindings)
    ensures s.up.None? ==> ReadKeyBindings(s) == Failure(MissingField("up"))
    ensures s.up.Some? && s.down.Some? && s.left.Some? && s.right.Some? && s.scaleIncrease.None?
            ==> ReadKeyBindings(s) == Failure(MissingField("scale_increase"))
  {
  }

  // ---------------------------------------------------------------------
  // Key type of the generic backend

  /** The generic backend's key type: 111 slots, numbered by `Index`,
      with canonical keys converted by `ToDevice`. */
  function DeviceQueryKeycodeType(): KeycodeType<DeviceQueryKeycode>
  {
    KeycodeType(NumVariants(), Index, ToDevice)
  }

  /** The generic backend's numbering meets what the engine needs: every
      index is below `NumVariants()`, so every table lookup is in bounds,
      and distinct keys have distinct indices. */
  lemma DeviceQueryKeycodeTypeValid()
    ensures ValidKeycodeType(DeviceQueryKeycodeType())
  {
    forall x: DeviceQueryKeycode, y: DeviceQueryKeycode
      ensures Index(x) == Index(y) ==> x == y
    {
      IndexInjective(x, y);
    }
  }

  // ---------------------------------------------------------------------
  // Key buffer

  /** The ten bindings in declaration order, which is also the order the
      key buffer registers them in. */
  function Bindings(b: KeyBindings): (r: seq<KeyBinding>)
    ensures |r| == 10
    ensures forall a: Action :: r[a.Ordinal()] == Binding(b, a)
  {
    [b.up, b.down, b.left, b.right, b.cycleMonitor, b.scaleIncrease, b.scaleDecrease,
     b.toggleHidden, b.toggleAdjust, b.toggleColorPicker]
  }

  /** Every key of every binding, in registration order, repeats kept. */
  function BoundKeys(b: KeyBindings): KeyBinding
  {
    Concat(Bindings(b))
  }

  /** Every key of an action's binding is among the bound keys. */
  lemma BindingBound(b: KeyBindings, a: Action)
    ensures forall k | k in Binding(b, a) :: k in BoundKeys(b)
  {
    MemberBound(Bindings(b), a.Ordinal());
  }

  datatype KeyBuffer<!K> = KeyBuffer(
    lookupTable: seq<Mask>,
    upMask: Mask,
    downMask: Mask,
    leftMask: Mask,
    rightMask: Mask,
    cycleMonitorMask: Mask,
    scaleIncreaseMask: Mask,
    scaleDecreaseMask: Mask,
    toggleHiddenMask: Mask,
    toggleAdjustMask: Mask,
    toggleColorPickerMask: Mask,
    anyMovementMask: Mask,
    anyScaleMask: Mask,
    keycodeType: KeycodeType<K>)

  /** The buffer's table has one entry per slot of a valid key type. */
  ghost predicate ValidBuffer<K(!new)>(kb: KeyBuffer<K>)
  {
    ValidKeycodeType(kb.keycodeType) && |kb.lookupTable| == kb.keycodeType.numVariants
  }

  function ActionMask<K>(kb: KeyBuffer<K>, a: Action): Mask
  {
    match a
    case Up => kb.upMask
    case Down => kb.downMask
    case Left => kb.leftMask
    case Right => kb.rightMask
    case CycleMonitor => kb.cycleMonitorMask
    case ScaleIncrease => kb.scaleIncreaseMask
    case ScaleDecrease => kb.scaleDecreaseMask
    case ToggleHidden => kb.toggleHiddenMask
    case ToggleAdjust => kb.toggleAdjustMask
    case ToggleColorPicker => kb.toggleColorPickerMask
  }

  /** The key buffer for a compilation of the ten chords: the masks in
      declaration order, and the two category masks the OR of the four
      movement masks and of the two scale masks. */
  function BufferOf<K>(kt: KeycodeType<K>, c: Compiled): KeyBuffer<K>
    requires |c.masks| == 10
  {
    var m := c.masks;
    KeyBuffer(c.assignment.table, m[0], m[1], m[2], m[3], m[4], m[5], m[6], m[7], m[8], m[9],
              Join(Join(Join(m[0], m[1]), m[2]), m[3]), Join(m[5], m[6]), kt)
  }

  /** Build the key buffer: register the ten chords in declaration order
      into a zeroed table of one entry per slot, stopping at the first that
      needs a 33rd key. */
  function NewKeyBuffer<K(!new)>(kt: KeycodeType<K>, b: KeyBindings): (r: Result<KeyBuffer<K>, string>)
    requires ValidKeycodeType(kt)
    ensures r.Success? ==> ValidBuffer(r.value) && r.value.keycodeType == kt
    ensures r.Failure? ==> r.error == TOO_MANY_KEYS
  {
    var c :- Compile(kt, Bindings(b));
    Success(BufferOf(kt, c))
  }

  function MovementKeys(b: KeyBindings): KeyBinding
  {
    b.up + b.down + b.left + b.right
  }

  function ScaleKeys(b: KeyBindings): KeyBinding
  {
    b.scaleIncrease + b.scaleDecrease
  }

  /** The key buffer is accepted exactly when the bindings use at most 32
      distinct platform keys; otherwise the error is the too-many-keys
      message. */
  lemma KeyBufferAccepts<K(!new)>(kt: KeycodeType<K>, b: KeyBindings)
    requires ValidKeycodeType(kt)
    ensures NewKeyBuffer(kt, b).Success? <==> |KeyOrder(kt, Bindings(b))| <= 32
    ensures NewKeyBuffer(kt, b).Failure? ==> NewKeyBuffer(kt, b).error == TOO_MANY_KEYS
  {
    CompileAccepts(kt, Bindings(b));
  }

  /** Bindings with at most 32 keys in all, repeats counted, are accepted. */
  lemma FewKeysAccepted<K(!new)>(kt: KeycodeType<K>, b: KeyBindings)
    requires ValidKeycodeType(kt) && |BoundKeys(b)| <= 32
    ensures NewKeyBuffer(kt, b).Success?
  {
    FewKeysCompile(kt, Bindings(b));
  }

  lemma MaskAtOrdinal<K>(kt: KeycodeType<K>, c: Compiled, a: Action)
    requires |c.masks| == 10
    ensures ActionMask(BufferOf(kt, c), a) == c.masks[a.Ordinal()]
  {
  }

  /** An accepted key buffer is laid out for its bindings: bits in
      first-seen key order, each action's mask the OR of its keys' bits,
      and each category mask the OR of the bits of all keys in the
      category. */
  lemma BufferLaidOut<K(!new)>(kt: KeycodeType<K>, b: KeyBindings, kb: KeyBuffer<K>)
    requires ValidKeycodeType(kt) && NewKeyBuffer(kt, b) == Success(kb)
    ensures ValidBuffer(kb) && kb.keycodeType == kt
    ensures Laid(kb.lookupTable, KeyOrder(kt, Bindings(b)))
    ensures forall a: Action :: InRange(Slots(kt, Binding(b, a)), |kb.lookupTable|)
    ensures forall a: Action :: ActionMask(kb, a) == MaskOf(kb.lookupTable, Slots(kt, Binding(b, a)))
    ensures InRange(Slots(kt, MovementKeys(b)), |kb.lookupTable|)
    ensures kb.anyMovementMask == MaskOf(kb.lookupTable, Slots(kt, MovementKeys(b)))
    ensures InRange(Slots(kt, ScaleKeys(b)), |kb.lookupTable|)
    ensures kb.anyScaleMask == MaskOf(kb.lookupTable, Slots(kt, ScaleKeys(b)))
  {
    var c := Compile(kt, Bindings(b)).value;
    assert kb == BufferOf(kt, c);
    CompileLaid(kt, Bindings(b), c);
    ActionMasksLaid(kt, b, c);
    CategoryMasksLaid(kt, b, c);
  }

  /** Each action's mask in a compiled buffer is the OR of its keys' entries. */
  lemma ActionMasksLaid<K(!new)>(kt: KeycodeType<K>, b: KeyBindings, c: Compiled)
    requires ValidKeycodeType(kt) && Compile(kt, Bindings(b)) == Success(c)
    ensures |c.masks| == 10
    ensures forall a: Action :: InRange(Slots(kt, Binding(b, a)), |c.assignment.table|)
    ensures forall a: Action :: ActionMask(BufferOf(kt, c), a) == MaskOf(c.assignment.table, Slots(kt, Binding(b, a)))
  {
    CompileLaid(kt, Bindings(b), c);
    forall a: Action
      ensures InRange(Slots(kt, Binding(b, a)), |c.assignment.table|)
      ensures ActionMask(BufferOf(kt, c), a) == MaskOf(c.assignment.table, Slots(kt, Binding(b, a)))
    {
      MaskAtOrdinal(kt, c, a);
    }
  }

  /** The category masks of a compiled buffer are the ORs of the entries of
      the categories' keys. */
  lemma CategoryMasksLaid<K(!new)>(kt: KeycodeType<K>, b: KeyBindings, c: Compiled)
    requires ValidKeycodeType(kt) && Compile(kt, Bindings(b)) == Success(c)
    ensures |c.masks| == 10 && |c.assignment.table| == kt.numVariants
    ensures InRange(Slots(kt, MovementKeys(b)), |c.assignment.table|)
    ensures BufferOf(kt, c).anyMovementMask == MaskOf(c.assignment.table, Slots(kt, MovementKeys(b)))
    ensures InRange(Slots(kt, ScaleKeys(b)), |c.assignment.table|)
    ensures BufferOf(kt, c).anyScaleMask == MaskOf(c.assignment.table, Slots(kt, ScaleKeys(b)))
  {
    CompileLaid(kt, Bindings(b), c);
    var t := c.assignment.table;
    JoinSlots(kt, t, b.up, b.down);
    JoinSlots(kt, t, b.up + b.down, b.left);
    JoinSlots(kt, t, b.up + b.down + b.left, b.right);
    JoinSlots(kt, t, b.scaleIncrease, b.scaleDecrease);
  }

  // ---------------------------------------------------------------------
  // Keys down

  /** The mask of the keys down: the OR of their table entries, 0 when none
      is down. */
  function Snapshot<K(!new)>(kb: KeyBuffer<K>, keys: seq<K>): Mask
    requires ValidBuffer(kb)
  {
    MaskOf(kb.lookupTable, PressedSlots(kb.keycodeType, keys))
  }

  /** The per-action check of a mask: the action's chord is within it. */
  predicate Active<K>(kb: KeyBuffer<K>, a: Action, buf: Mask)
  {
    Contains(buf, ActionMask(kb, a))
  }

  /** With an accepted key buffer, an action is active in the snapshot of
      the keys down exactly when its whole chord is down; other keys down
      at the same time make no difference. */
  lemma ActiveIffHeld<K(!new)>(kt: KeycodeType<K>, b: KeyBindings, kb: KeyBuffer<K>, keys: seq<K>, a: Action)
    requires ValidKeycodeType(kt) && NewKeyBuffer(kt, b) == Success(kb)
    ensures ValidBuffer(kb)
    ensures Active(kb, a, Snapshot(kb, keys)) <==> Held(kt, Binding(b, a), keys)
  {
    BufferLaidOut(kt, b, kb);
    BindingBound(b, a);
    SnapshotIffHeld(kt, Bindings(b), kb.lookupTable, Binding(b, a), keys);
  }

  lemma CategoriesBound(b: KeyBindings)
    ensures forall k | k in MovementKeys(b) :: k in BoundKeys(b)
    ensures forall k | k in ScaleKeys(b) :: k in BoundKeys(b)
  {
    BindingBound(b, Up);
    BindingBound(b, Down);
    BindingBound(b, Left);
    BindingBound(b, Right);
    BindingBound(b, ScaleIncrease);
    BindingBound(b, ScaleDecrease);
  }

  /** With an accepted key buffer, the movement category is active exactly
      when some movement key is down, and likewise for scaling, whether or
      not any whole chord is down. */
  lemma CategoriesIffAnyHeld<K(!new)>(kt: KeycodeType<K>, b: KeyBindings, kb: KeyBuffer<K>, keys: seq<K>)
    requires ValidKeycodeType(kt) && NewKeyBuffer(kt, b) == Success(kb)
    ensures ValidBuffer(kb)
    ensures Overlaps(Snapshot(kb, keys), kb.anyMovementMask) <==> AnyHeld(kt, MovementKeys(b), keys)
    ensures Overlaps(Snapshot(kb, keys), kb.anyScaleMask) <==> AnyHeld(kt, ScaleKeys(b), keys)
  {
    BufferLaidOut(kt, b, kb);
    CategoriesBound(b);
    SnapshotIffHeld(kt, Bindings(b), kb.lookupTable, MovementKeys(b), keys);
    SnapshotIffHeld(kt, Bindings(b), kb.lookupTable, ScaleKeys(b), keys);
  }

  // ---------------------------------------------------------------------
  // Manager

  datatype HotkeyManager<!K> = HotkeyManager(
    previousState: Mask,
    currentState: Mask,
    movementKeyHeldFrames: u32,
    scaleKeyHeldFrames: u32,
    keyBuffer: KeyBuffer<K>,
    keyboardState: KeyboardState<K>)

  /** A fresh manager: both snapshots and both counters zero, no keys
      recorded; fails when the key buffer does. */
  function NewGeneric<K(!new)>(kt: KeycodeType<K>, b: KeyBindings): (r: Result<HotkeyManager<K>, string>)
    requires ValidKeycodeType(kt)
    ensures r.Success? <==> NewKeyBuffer(kt, b).Success?
    ensures r.Success? ==> r.value.keyBuffer == NewKeyBuffer(kt, b).value
    ensures r.Success? ==> r.value.previousState == 0 && r.value.currentState == 0
    ensures r.Success? ==> r.value.movementKeyHeldFrames == 0 && r.value.scaleKeyHeldFrames == 0
    ensures r.Success? ==> GetState(r.value.keyboardState) == []
    ensures r.Failure? ==> r.error == TOO_MANY_KEYS
  {
    var kb :- NewKeyBuffer(kt, b);
    Success(HotkeyManager(0, 0, 0, 0, kb, DefaultKeyboardState()))
  }

  /** Record the keys the keyboard reports down; nothing else changes. */
  function PollKeys<K>(m: HotkeyManager<K>, observed: seq<K>): (m': HotkeyManager<K>)
    ensures GetState(m'.keyboardState) == observed
    ensures m' == m.(keyboardState := m'.keyboardState)
  {
    m.(keyboardState := Poll(m.keyboardState, observed))
  }

  /** Advance one frame: the current snapshot becomes the previous one,
      the recorded keys give the new one, and each category's held-frame
      counter counts up while any key of it is down and resets otherwise. */
  function ProcessKeys<K(!new)>(m: HotkeyManager<K>): (r: HotkeyManager<K>)
    requires ValidBuffer(m.keyBuffer)
    ensures r.keyBuffer == m.keyBuffer && r.keyboardState == m.keyboardState
    ensures r.previousState == m.currentState
    ensures r.currentState == Snapshot(m.keyBuffer, GetState(m.keyboardState))
    ensures Overlaps(r.currentState, m.keyBuffer.anyMovementMask) ==>
              r.movementKeyHeldFrames as int == (m.movementKeyHeldFrames as int + 1) % U32_LIMIT
    ensures !Overlaps(r.currentState, m.keyBuffer.anyMovementMask) ==> r.movementKeyHeldFrames == 0
    ensures Overlaps(r.currentState, m.keyBuffer.anyScaleMask) ==>
              r.scaleKeyHeldFrames as int == (m.scaleKeyHeldFrames as int + 1) % U32_LIMIT
    ensures !Overlaps(r.currentState, m.keyBuffer.anyScaleMask) ==> r.scaleKeyHeldFrames == 0
  {
    var kb := m.keyBuffer;
    var current := Snapshot(kb, GetState(m.keyboardState));
    m.(previousState := m.currentState,
       currentState := current,
       movementKeyHeldFrames := Advance(m.movementKeyHeldFrames, Overlaps(current, kb.anyMovementMask)),
       scaleKeyHeldFrames := Advance(m.scaleKeyHeldFrames, Overlaps(current, kb.anyScaleMask)))
  }

  /** One frame of the main loop: poll, then process. */
  function Tick<K(!new)>(m: HotkeyManager<K>, keys: seq<K>): (r: HotkeyManager<K>)
    requires ValidBuffer(m.keyBuffer)
    ensures GetState(r.keyboardState) == keys
    ensures r.keyBuffer == m.keyBuffer && r.previousState == m.currentState
    ensures r.currentState == Snapshot(m.keyBuffer, keys)
  {
    ProcessKeys(PollKeys(m, keys))
  }

  /** A toggle's chord went down between the previous frame and this one. */
  predicate JustPressed<K>(m: HotkeyManager<K>, a: Action)
    requires a.IsToggle()
    ensures JustPressed(m, a) ==> m.previousState != m.currentState
    ensures ActionMask(m.keyBuffer, a) == 0 ==> !JustPressed(m, a)
  {
    !Active(m.keyBuffer, a, m.previousState) && Active(m.keyBuffer, a, m.currentState)
  }

  /** The speed curve of a held movement key: a first frame of 1, a pause
      until frame 10, then 1, 4, 16, 32 and finally 64. */
  function MoveRamp(frames: u32): (r: u32)
    ensures r in {0, 1, 4, 16, 32, 64}
    ensures r == 0 <==> 2 <= frames < 10
  {
    if frames < 2 then 1
    else if frames < 10 then 0
    else if frames < 25 then 1
    else if frames < 35 then 4
    else if frames < 55 then 16
    else if frames < 75 then 32
    else 64
  }

  /** The speed curve of a held scale key, written separately and with
      the same breakpoints. */
  function ScaleRamp(frames: u32): (r: u32)
    ensures r == MoveRamp(frames)
  {
    if frames < 2 then 1
    else if frames < 10 then 0
    else if frames < 25 then 1
    else if frames < 35 then 4
    else if frames < 55 then 16
    else if frames < 75 then 32
    else 64
  }

  /** The amount a movement or scale action asks for this frame: its
      category's ramp at the frames the category has been held, when the
      action's chord is down in the current snapshot, and 0 otherwise. */
  function Amount<K>(m: HotkeyManager<K>, a: Action): (r: u32)
    requires a.IsMovement() || a.IsScale()
    ensures r <= 64
    ensures var frames := if a.IsMovement() then m.movementKeyHeldFrames else m.scaleKeyHeldFrames;
            r == 0 <==> !Active(m.keyBuffer, a, m.currentState) || 2 <= frames < 10
  {
    if !Active(m.keyBuffer, a, m.currentState) then 0
    else if a.IsMovement() then MoveRamp(m.movementKeyHeldFrames)
    else ScaleRamp(m.scaleKeyHeldFrames)
  }

  // ---------------------------------------------------------------------
  // Frame behaviour

  /** What one frame does to the counters: each advances exactly when a key
      of its category is down, and resets otherwise. */
  lemma TickCounters<K(!new)>(kt: KeycodeType<K>, b: KeyBindings, m: HotkeyManager<K>, keys: seq<K>)
    requires ValidKeycodeType(kt) && NewKeyBuffer(kt, b) == Success(m.keyBuffer)
    ensures ValidBuffer(m.keyBuffer)
    ensures Tick(m, keys).keyBuffer == m.keyBuffer
    ensures Tick(m, keys).previousState == m.currentState
    ensures Tick(m, keys).movementKeyHeldFrames
         == Advance(m.movementKeyHeldFrames, AnyHeld(kt, MovementKeys(b), keys))
    ensures Tick(m, keys).scaleKeyHeldFrames
         == Advance(m.scaleKeyHeldFrames, AnyHeld(kt, ScaleKeys(b), keys))
  {
    CategoriesIffAnyHeld(kt, b, m.keyBuffer, keys);
    assert Tick(m, keys).currentState == Snapshot(m.keyBuffer, keys);
  }

  /** What one frame does to the snapshots: the old one moves to
      `previousState`, and every action is active in the new one exactly
      when its chord is down. */
  lemma TickActive<K(!new)>(kt: KeycodeType<K>, b: KeyBindings, m: HotkeyManager<K>, keys: seq<K>)
    requires ValidKeycodeType(kt) && NewKeyBuffer(kt, b) == Success(m.keyBuffer)
    ensures ValidBuffer(m.keyBuffer)
    ensures Tick(m, keys).keyBuffer == m.keyBuffer
    ensures Tick(m, keys).previousState == m.currentState
    ensures forall a: Action :: Active(m.keyBuffer, a, Tick(m, keys).currentState) <==> Held(kt, Binding(b, a), keys)
  {
    var kb := m.keyBuffer;
    assert ValidBuffer(kb);
    assert Tick(m, keys).currentState == Snapshot(kb, keys);
    forall a: Action
      ensures Active(kb, a, Snapshot(kb, keys)) <==> Held(kt, Binding(b, a), keys)
    {
      ActiveIffHeld(kt, b, kb, keys, a);
    }
  }

  /** A toggle fires on the frame its chord goes down: exactly when the
      chord was not down at the frame before and is down now. */
  lemma ToggleIffPressedNow<K(!new)>(kt: KeycodeType<K>, b: KeyBindings, m: HotkeyManager<K>, before: seq<K>, now: seq<K>, a: Action)
    requires ValidKeycodeType(kt) && NewKeyBuffer(kt, b) == Success(m.keyBuffer) && a.IsToggle()
    ensures ValidBuffer(m.keyBuffer)
    ensures JustPressed(Tick(Tick(m, before), now), a)
        <==> !Held(kt, Binding(b, a), before) && Held(kt, Binding(b, a), now)
  {
    TickActive(kt, b, m, before);
    TickActive(kt, b, Tick(m, before), now);
  }

  /** Holding the same keys for a second frame never fires a toggle again. */
  lemma ToggleFiresOnce<K(!new)>(m: HotkeyManager<K>, keys: seq<K>, a: Action)
    requires ValidBuffer(m.keyBuffer) && a.IsToggle()
    ensures !JustPressed(Tick(Tick(m, keys), keys), a)
  {
  }

  /** A movement or scale action asks for its ramp value at the updated
      counter of its category while its chord is down, and for 0 otherwise. */
  lemma AmountAfterTick<K(!new)>(kt: KeycodeType<K>, b: KeyBindings, m: HotkeyManager<K>, keys: seq<K>, a: Action)
    requires ValidKeycodeType(kt) && NewKeyBuffer(kt, b) == Success(m.keyBuffer)
    requires a.IsMovement() || a.IsScale()
    ensures ValidBuffer(m.keyBuffer)
    ensures Amount(Tick(m, keys), a)
         == if !Held(kt, Binding(b, a), keys) then 0
            else if a.IsMovement() then MoveRamp(Advance(m.movementKeyHeldFrames, AnyHeld(kt, MovementKeys(b), keys)))
            else ScaleRamp(Advance(m.scaleKeyHeldFrames, AnyHeld(kt, ScaleKeys(b), keys)))
  {
    TickActive(kt, b, m, keys);
    TickCounters(kt, b, m, keys);
  }

  /** Pressing an action's chord after its category was released moves or
      scales by exactly 1. */
  lemma TapStepsOne<K(!new)>(kt: KeycodeType<K>, b: KeyBindings, m: HotkeyManager<K>, keys: seq<K>, a: Action)
    requires ValidKeycodeType(kt) && NewKeyBuffer(kt, b) == Success(m.keyBuffer)
    requires a.IsMovement() || a.IsScale()
    requires a.IsMovement() ==> m.movementKeyHeldFrames == 0
    requires a.IsScale() ==> m.scaleKeyHeldFrames == 0
    requires Held(kt, Binding(b, a), keys)
    ensures ValidBuffer(m.keyBuffer)
    ensures Amount(Tick(m, keys), a) == 1
  {
    AmountAfterTick(kt, b, m, keys, a);
  }

  /** A key no binding uses, down or not, changes nothing but the recorded
      keys. */
  lemma UnboundKeyIgnored<K(!new)>(kt: KeycodeType<K>, b: KeyBindings, m: HotkeyManager<K>, p: seq<K>, d: K, q: seq<K>)
    requires ValidKeycodeType(kt) && NewKeyBuffer(kt, b) == Success(m.keyBuffer)
    requires forall k | k in BoundKeys(b) :: kt.fromKeycode(k) != d
    ensures ValidBuffer(m.keyBuffer)
    ensures Tick(m, p + [d] + q) == Tick(m, p + q).(keyboardState := Poll(m.keyboardState, p + [d] + q))
  {
    BufferLaidOut(kt, b, m.keyBuffer);
    UnboundKeyInvisible(kt, Bindings(b), m.keyBuffer.lookupTable, p, d, q);
  }

  /** The manager after `n` frames with the same keys down. */
  function Repeat<K(!new)>(m: HotkeyManager<K>, keys: seq<K>, n: nat): (r: HotkeyManager<K>)
    requires ValidBuffer(m.keyBuffer)
    ensures r.keyBuffer == m.keyBuffer
  {
    if n == 0 then m else Tick(Repeat(m, keys, n - 1), keys)
  }

  /** The two categories with a held-frame counter. */
  datatype Category = Movement | Scale

  function CategoryKeys(b: KeyBindings, c: Category): KeyBinding
  {
    match c
    case Movement => MovementKeys(b)
    case Scale => ScaleKeys(b)
  }

  function HeldFrames<K>(m: HotkeyManager<K>, c: Category): u32
  {
    match c
    case Movement => m.movementKeyHeldFrames
    case Scale => m.scaleKeyHeldFrames
  }

  /** Holding the same keys for `n` frames counts the frames, modulo 2^32,
      in a category with a key down, and leaves the counter at 0 in a
      category with none. */
  lemma HoldCounts<K(!new)>(kt: KeycodeType<K>, b: KeyBindings, m: HotkeyManager<K>, keys: seq<K>, n: nat, c: Category)
    requires ValidKeycodeType(kt) && NewKeyBuffer(kt, b) == Success(m.keyBuffer)
    ensures ValidBuffer(m.keyBuffer)
    ensures AnyHeld(kt, CategoryKeys(b, c), keys) ==>
              HeldFrames(Repeat(m, keys, n), c) as int == (HeldFrames(m, c) as int + n) % U32_LIMIT
    ensures !AnyHeld(kt, CategoryKeys(b, c), keys) && n > 0 ==> HeldFrames(Repeat(m, keys, n), c) == 0
  {
    CategoriesIffAnyHeld(kt, b, m.keyBuffer, keys);
    HoldCountsByMask(m, keys, n, c);
  }

  /** The mask a category's counter tests each snapshot against. */
  function CategoryMask<K>(kb: KeyBuffer<K>, c: Category): Mask
  {
    match c
    case Movement => kb.anyMovementMask
    case Scale => kb.anyScaleMask
  }

  /** The counter's own test: the snapshot of `keys` shares a bit with the
      category's mask. */
  predicate CategoryHeld<K(!new)>(m: HotkeyManager<K>, keys: seq<K>, c: Category)
    requires ValidBuffer(m.keyBuffer)
  {
    Overlaps(Snapshot(m.keyBuffer, keys), CategoryMask(m.keyBuffer, c))
  }

  /** The counting law for any well-formed buffer, stated with the
      counter's own mask test. */
  lemma HoldCountsByMask<K(!new)>(m: HotkeyManager<K>, keys: seq<K>, n: nat, c: Category)
    requires ValidBuffer(m.keyBuffer)
    ensures CategoryHeld(m, keys, c) ==>
              HeldFrames(Repeat(m, keys, n), c) as int == (HeldFrames(m, c) as int + n) % U32_LIMIT
    ensures !CategoryHeld(m, keys, c) && n > 0 ==> HeldFrames(Repeat(m, keys, n), c) == 0
  {
    var counts := CounterSteps(m, keys, n, c);
    CountFramesEnds(counts, CategoryHeld(m, keys, c), n, HeldFrames(m, c), HeldFrames(Repeat(m, keys, n), c));
  }

  /** One category's counter over the first `n` frames of holding the
      same keys, from the manager's own value to the value after `n`
      frames. */
  function CounterTrace<K(!new)>(m: HotkeyManager<K>, keys: seq<K>, n: nat, c: Category): (r: seq<u32>)
    requires ValidBuffer(m.keyBuffer)
    ensures |r| == n + 1 && r[0] == HeldFrames(m, c) && r[n] == HeldFrames(Repeat(m, keys, n), c)
    ensures forall i | 0 <= i <= n :: r[i] == HeldFrames(Repeat(m, keys, i), c)
  {
    seq(n + 1, i requires 0 <= i <= n => HeldFrames(Repeat(m, keys, i), c))
  }

  /** The trace of one category's counter over `n` frames, in which
      each frame advances or resets the counter by the counter's mask
      test. */
  lemma CounterSteps<K(!new)>(m: HotkeyManager<K>, keys: seq<K>, n: nat, c: Category) returns (counts: seq<u32>)
    requires ValidBuffer(m.keyBuffer)
    ensures |counts| == n + 1 && counts[0] == HeldFrames(m, c) && counts[n] == HeldFrames(Repeat(m, keys, n), c)
    ensures forall i | 0 < i <= n :: counts[i] == Advance(counts[i - 1], CategoryHeld(m, keys, c))
  {
    counts := CounterTrace(m, keys, n, c);
    forall i | 0 < i <= n
      ensures counts[i] == Advance(counts[i - 1], CategoryHeld(m, keys, c))
    {
      RepeatStep(m, keys, i, c, Repeat(m, keys, i - 1));
    }
  }

  /** The last of `n` frames, as seen by one category's counter. */
  lemma RepeatStep<K(!new)>(m: HotkeyManager<K>, keys: seq<K>, n: nat, c: Category, prior: HotkeyManager<K>)
    requires ValidBuffer(m.keyBuffer)
    requires n > 0 && prior == Repeat(m, keys, n - 1)
    ensures HeldFrames(Repeat(m, keys, n), c) == Advance(HeldFrames(prior, c), CategoryHeld(m, keys, c))
  {
    assert Repeat(m, keys, n) == Tick(prior, keys);
    assert Tick(prior, keys).currentState == Snapshot(m.keyBuffer, keys);
  }

  // ---------------------------------------------------------------------
  // Ramps

  /** The ramp takes only the values 0, 1, 4, 16, 32 and 64, each on the
      frames listed: 1 on the first two frames and again from frame 10, 0
      during the pause from frame 2 to frame 9, then 4 from frame 25, 16
      from 35, 32 from 55 and 64 from 75. It never slows down after the
      pause. */
  lemma RampShape(j: u32, k: u32)
    ensures MoveRamp(j) in {0, 1, 4, 16, 32, 64}
    ensures MoveRamp(j) == 1 <==> j < 2 || 10 <= j < 25
    ensures MoveRamp(j) == 0 <==> 2 <= j < 10
    ensures MoveRamp(j) == 4 <==> 25 <= j < 35
    ensures MoveRamp(j) == 16 <==> 35 <= j < 55
    ensures MoveRamp(j) == 32 <==> 55 <= j < 75
    ensures MoveRamp(j) == 64 <==> 75 <= j
    ensures 10 <= j <= k ==> MoveRamp(j) <= MoveRamp(k)
  {
  }

  /** Scaling follows the movement curve. */
  lemma ScaleRampIsMoveRamp(frames: u32)
    ensures ScaleRamp(frames) == MoveRamp(frames)
  {
  }

  // ---------------------------------------------------------------------
  // Defaults

  /** The default bindings are accepted by every valid key type. */
  lemma DefaultsAccepted<K(!new)>(kt: KeycodeType<K>)
    requires ValidKeycodeType(kt)
    ensures |BoundKeys(DefaultKeyBindings())| == 14
    ensures NewKeyBuffer(kt, DefaultKeyBindings()).Success?
  {
    var b := DefaultKeyBindings();
    assert |BoundKeys(b)| == 14;
    FewKeysAccepted(kt, b);
  }

  /** The generic backend's manager built from the default bindings;
      building it cannot fail. */
  function DefaultHotkeyManager(): (m: HotkeyManager<DeviceQueryKeycode>)
    ensures ValidKeycodeType(DeviceQueryKeycodeType())
    ensures NewKeyBuffer(DeviceQueryKeycodeType(), DefaultKeyBindings()) == Success(m.keyBuffer)
    ensures m.previousState == 0 && m.currentState == 0
    ensures m.movementKeyHeldFrames == 0 && m.scaleKeyHeldFrames == 0
    ensures GetState(m.keyboardState) == []
  {
    DeviceQueryKeycodeTypeValid();
    DefaultsAccepted(DeviceQueryKeycodeType());
    NewGeneric(DeviceQueryKeycodeType(), DefaultKeyBindings()).value
  }

  /** With the default bindings every movement and scale chord is a single
      key, so a category counts frames exactly while one of its actions is
      held. */
  lemma DefaultCategoriesExact<K(!new)>(kt: KeycodeType<K>, keys: seq<K>)
    ensures var b := DefaultKeyBindings();
            AnyHeld(kt, MovementKeys(b), keys) <==>
              Held(kt, b.up, keys) || Held(kt, b.down, keys) || Held(kt, b.left, keys) || Held(kt, b.right, keys)
    ensures var b := DefaultKeyBindings();
            AnyHeld(kt, ScaleKeys(b), keys) <==> Held(kt, b.scaleIncrease, keys) || Held(kt, b.scaleDecrease, keys)
  {
    var b := DefaultKeyBindings();
    var mk := MovementKeys(b);
    assert mk == [Keycodes.Up, Keycodes.Down, Keycodes.Left, Keycodes.Right];
    if AnyHeld(kt, mk, keys) {
      var j :| 0 <= j < 4 && kt.fromKeycode(mk[j]) in keys;
      assert Held(kt, [mk[j]], keys);
    }
    assert Held(kt, b.up, keys) ==> kt.fromKeycode(mk[0]) in keys;
    assert Held(kt, b.down, keys) ==> kt.fromKeycode(mk[1]) in keys;
    assert Held(kt, b.left, keys) ==> kt.fromKeycode(mk[2]) in keys;
    assert Held(kt, b.right, keys) ==> kt.fromKeycode(mk[3]) in keys;
    var sk := ScaleKeys(b);
    assert sk == [Keycodes.PageUp, Keycodes.PageDown];
    if AnyHeld(kt, sk, keys) {
      var j :| 0 <= j < 2 && kt.fromKeycode(sk[j]) in keys;
      assert Held(kt, [sk[j]], keys);
    }
    assert Held(kt, b.scaleIncrease, keys) ==> kt.fromKeycode(sk[0]) in keys;
    assert Held(kt, b.scaleDecrease, keys) ==> kt.fromKeycode(sk[1]) in keys;
  }

  /** The default bindings with `up` changed to Left Control + Up. */
  function ControlUpBindings(): KeyBindings
  {
    DefaultKeyBindings().(up := [Keycodes.LControl, Keycodes.Up])
  }

  /** Movement frames count while any movement key is down, even when no
      movement chord is complete; then every movement action asks for 0
      although the counter advances. */
  lemma PartialChordCounts<K(!new)>(kt: KeycodeType<K>, b: KeyBindings, m: HotkeyManager<K>, keys: seq<K>)
    requires ValidKeycodeType(kt) && NewKeyBuffer(kt, b) == Success(m.keyBuffer)
    requires AnyHeld(kt, MovementKeys(b), keys)
    requires forall a: Action | a.IsMovement() :: !Held(kt, Binding(b, a), keys)
    ensures ValidBuffer(m.keyBuffer)
    ensures Tick(m, keys).movementKeyHeldFrames == Inc(m.movementKeyHeldFrames)
    ensures forall a: Action | a.IsMovement() :: Amount(Tick(m, keys), a) == 0
  {
    TickCounters(kt, b, m, keys);
    TickActive(kt, b, m, keys);
  }

  /** Such a frame happens: with `up` bound to Left Control + Up, holding
      Left Control alone is a movement key down with no movement chord
      complete, for any key type whose conversion is one-to-one. */
  lemma ControlAloneIsPartial<K(!new)>(kt: KeycodeType<K>)
    requires forall x, y :: kt.fromKeycode(x) == kt.fromKeycode(y) ==> x == y
    ensures AnyHeld(kt, MovementKeys(ControlUpBindings()), [kt.fromKeycode(Keycodes.LControl)])
    ensures forall a: Action | a.IsMovement() :: !Held(kt, Binding(ControlUpBindings(), a), [kt.fromKeycode(Keycodes.LControl)])
  {
    var b := ControlUpBindings();
    var keys := [kt.fromKeycode(Keycodes.LControl)];
    assert kt.fromKeycode(MovementKeys(b)[0]) in keys;
    forall a: Action | a.IsMovement()
      ensures !Held(kt, Binding(b, a), keys)
    {
      var chord := Binding(b, a);
      assert kt.fromKeycode(chord[|chord| - 1]) !in keys;
    }
  }

  /** The generic backend's conversion from canonical keys is one-to-one,
      so the partial-chord frame above arises with it. */
  lemma DeviceQueryFromKeycodeInjective()
    ensures forall x, y :: DeviceQueryKeycodeType().fromKeycode(x) == DeviceQueryKeycodeType().fromKeycode(y) ==> x == y
  {
  }
}
