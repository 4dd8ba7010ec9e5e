/** The canonical, platform-independent key identities that key bindings
    are written in. The enumeration is declared in the program's hotkey
    module, which is not part of this model; its variants are exactly the
    111 named by the exhaustive conversions to and from the keyboard
    backend's key type, listed here in the backend's index order. */
module Keycodes {
  datatype Keycode =
    | Key0
    | Key1
    | Key2
    | Key3
    | Key4
    | Key5
    | Key6
    | Key7
    | Key8
    | Key9
    | A
    | B
    | C
    | D
    | E
    | F
    | G
    | H
    | I
    | J
    | K
    | L
    | M
    | N
    | O
    | P
    | Q
    | R
    | S
    | T
    | U
    | V
    | W
    | X
    | Y
    | Z
    | F1
    | F2
    | F3
    | F4
    | F5
    | F6
    | F7
    | F8
    | F9
    | F10
    | F11
    | F12
    | Escape
    | Space
    | LControl
    | RControl
    | LShift
    | RShift
    | LAlt
    | RAlt
    | LMeta
    | RMeta
    | Enter
    | Up
    | Down
    | Left
    | Right
    | Backspace
    | CapsLock
    | Tab
    | Home
    | End
    | PageUp
    | PageDown
    | Insert
    | Delete
    | Numpad0
    | Numpad1
    | Numpad2
    | Numpad3
    | Numpad4
    | Numpad5
    | Numpad6
    | Numpad7
    | Numpad8
    | Numpad9
    | NumpadSubtract
    | NumpadAdd
    | NumpadDivide
    | NumpadMultiply
    | Grave
    | Minus
    | Equal
    | LeftBracket
    | RightBracket
    | BackSlash
    | Semicolon
    | Apostrophe
    | Comma
    | Dot
    | Slash
    | F13
    | F14
    | F15
    | F16
    | F17
    | F18
    | F19
    | F20
    | Command
    | LOption
    | ROption
    | NumpadEquals
    | NumpadEnter
    | NumpadDecimal
}

/** The generic keyboard backend: the key type reported by the polling
    library, its conversions to and from `Keycode`, the dense index that
    addresses the hotkey lookup table, and the polled keyboard state. */
module DeviceQuery {
  import opened Keycodes

  /** The polling library's key type. Its variants carry the same names as
      `Keycode`'s and both conversions map every variant to the variant of
      the same name, so a backend key is modelled as the canonical name it
      corresponds to. */
  datatype DeviceQueryKeycode = DeviceQueryKeycode(key: Keycode)

  /** Backend key to canonical key. */
  function FromDevice(d: DeviceQueryKeycode): Keycode
  {
    d.key
  }

  /** Canonical key to backend key. */
  function ToDevice(k: Keycode): DeviceQueryKeycode
  {
    DeviceQueryKeycode(k)
  }

  /** Canonical to backend and back is the identity. */
  lemma KeycodeRoundTrip(k: Keycode)
    ensures FromDevice(ToDevice(k)) == k
  {
  }

  /** Backend to canonical and back is the identity. */
  lemma DeviceRoundTrip(d: DeviceQueryKeycode)
    ensures ToDevice(FromDevice(d)) == d
  {
  }

  /** Size of the hotkey lookup table: the number of values `Index` takes. */
  function NumVariants(): nat { 111 }

  /** The key numbered `i` by `Index`, found by bisection on `i`. */
  function KeyAt(i: nat): Keycode
    requires i < NumVariants()
  {
    if i < 55 then
      if i < 27 then
        if i < 13 then
          if i < 6 then
            if i < 3 then
              if i < 1 then
                Key0
              else
                if i < 2 then
                  Key1
                else
                  Key2
            else
              if i < 4 then
                Key3
              else
                if i < 5 then
                  Key4
                else
                  Key5
          else
            if i < 9 then
              if i < 7 then
                Key6
              else
                if i < 8 then
                  Key7
                else
                  Key8
            else
              if i < 11 then
                if i < 10 then
                  Key9
                else
                  A
              else
                if i < 12 then
                  B
                else
                  C
        else
          if i < 20 then
            if i < 16 then
              if i < 14 then
                D
              else
                if i < 15 then
                  E
                else
                  F
            else
              if i < 18 then
                if i < 17 then
                  G
                else
                  H
              else
                if i < 19 then
                  I
                else
                  J
          else
            if i < 23 then
              if i < 21 then
                K
              else
                if i < 22 then
                  L
                else
                  M
            else
              if i < 25 then
                if i < 24 then
                  N
                else
                  O
              else
                if i < 26 then
                  P
                else
                  Q
      else
        if i < 41 then
          if i < 34 then
            if i < 30 then
              if i < 28 then
                R
              else
                if i < 29 then
                  S
                else
                  T
            else
              if i < 32 then
                if i < 31 then
                  U
                else
                  V
              else
                if i < 33 then
                  W
                else
                  X
          else
            if i < 37 then
              if i < 35 then
                Y
              else
                if i < 36 then
                  Z
                else
                  F1
            else
              if i < 39 then
                if i < 38 then
                  F2
                else
                  F3
              else
                if i < 40 then
                  F4
                else
                  F5
        else
          if i < 48 then
            if i < 44 then
              if i < 42 then
                F6
              else
                if i < 43 then
                  F7
                else
                  F8
            else
              if i < 46 then
                if i < 45 then
                  F9
                else
                  F10
              else
                if i < 47 then
                  F11
                else
                  F12
          else
            if i < 51 then
              if i < 49 then
                Escape
              else
                if i < 50 then
                  Space
                else
                  LControl
            else
              if i < 53 then
                if i < 52 then
                  RControl
                else
                  LShift
              else
                if i < 54 then
                  RShift
                else
                  LAlt
    else
      if i < 83 then
        if i < 69 then
          if i < 62 then
            if i < 58 then
              if i < 56 then
                RAlt
              else
                if i < 57 then
                  LMeta
                else
                  RMeta
            else
              if i < 60 then
                if i < 59 then
                  Enter
                else
                  Up
              else
                if i < 61 then
                  Down
                else
                  Left
          else
            if i < 65 then
              if i < 63 then
                Right
              else
                if i < 64 then
                  Backspace
                else
                  CapsLock
            else
              if i < 67 then
                if i < 66 then
                  Tab
                else
                  Home
              else
                if i < 68 then
                  End
                else
                  PageUp
        else
          if i < 76 then
            if i < 72 then
              if i < 70 then
                PageDown
              else
                if i < 71 then
                  Insert
                else
                  Delete
            else
              if i < 74 then
                if i < 73 then
                  Numpad0
                else
                  Numpad1
              else
                if i < 75 then
                  Numpad2
                else
                  Numpad3
          else
            if i < 79 then
              if i < 77 then
                Numpad4
              else
                if i < 78 then
                  Numpad5
                else
                  Numpad6
            else
              if i < 81 then
                if i < 80 then
                  Numpad7
                else
                  Numpad8
              else
                if i < 82 then
                  Numpad9
                else
                  NumpadSubtract
      else
        if i < 97 then
          if i < 90 then
            if i < 86 then
              if i < 84 then
                NumpadAdd
              else
                if i < 85 then
                  NumpadDivide
                else
                  NumpadMultiply
            else
              if i < 88 then
                if i < 87 then
                  Grave
                else
                  Minus
              else
                if i < 89 then
                  Equal
                else
                  LeftBracket
          else
            if i < 93 then
              if i < 91 then
                RightBracket
              else
                if i < 92 then
                  BackSlash
                else
                  Semicolon
            else
              if i < 95 then
                if i < 94 then
                  Apostrophe
                else
                  Comma
              else
                if i < 96 then
                  Dot
                else
                  Slash
        else
          if i < 104 then
            if i < 100 then
              if i < 98 then
                F13
              else
                if i < 99 then
                  F14
                else
                  F15
            else
              if i < 102 then
                if i < 101 then
                  F16
                else
                  F17
              else
                if i < 103 then
                  F18
                else
                  F19
          else
            if i < 107 then
              if i < 105 then
                F20
              else
                if i < 106 then
                  Command
                else
                  LOption
            else
              if i < 109 then
                if i < 108 then
                  ROption
                else
                  NumpadEquals
              else
                if i < 110 then
                  NumpadEnter
                else
                  NumpadDecimal
  }

  /** Position of a backend key in the lookup table. It is always in
      bounds, and `KeyAt` recovers the key from it. */
  function Index(d: DeviceQueryKeycode): (i: nat)
    ensures i < NumVariants()
    ensures KeyAt(i) == d.key
  {
    match d.key
    case Key0 => 0
    case Key1 => 1
    case Key2 => 2
    case Key3 => 3
    case Key4 => 4
    case Key5 => 5
    case Key6 => 6
    case Key7 => 7
    case Key8 => 8
    case Key9 => 9
    case A => 10
    case B => 11
    case C => 12
    case D => 13
    case E => 14
    case F => 15
    case G => 16
    case H => 17
    case I => 18
    case J => 19
    case K => 20
    case L => 21
    case M => 22
    case N => 23
    case O => 24
    case P => 25
    case Q => 26
    case R => 27
    case S => 28
    case T => 29
    case U => 30
    case V => 31
    case W => 32
    case X => 33
    case Y => 34
    case Z => 35
    case F1 => 36
    case F2 => 37
    case F3 => 38
    case F4 => 39
    case F5 => 40
    case F6 => 41
    case F7 => 42
    case F8 => 43
    case F9 => 44
    case F10 => 45
    case F11 => 46
    case F12 => 47
    case Escape => 48
    case Space => 49
    case LControl => 50
    case RControl => 51
    case LShift => 52
    case RShift => 53
    case LAlt => 54
    case RAlt => 55
    case LMeta => 56
    case RMeta => 57
    case Enter => 58
    case Up => 59
    case Down => 60
    case Left => 61
    case Right => 62
    case Backspace => 63
    case CapsLock => 64
    case Tab => 65
    case Home => 66
    case End => 67
    case PageUp => 68
    case PageDown => 69
    case Insert => 70
    case Delete => 71
    case Numpad0 => 72
    case Numpad1 => 73
    case Numpad2 => 74
    case Numpad3 => 75
    case Numpad4 => 76
    case Numpad5 => 77
    case Numpad6 => 78
    case Numpad7 => 79
    case Numpad8 => 80
    case Numpad9 => 81
    case NumpadSubtract => 82
    case NumpadAdd => 83
    case NumpadDivide => 84
    case NumpadMultiply => 85
    case Grave => 86
    case Minus => 87
    case Equal => 88
    case LeftBracket => 89
    case RightBracket => 90
    case BackSlash => 91
    case Semicolon => 92
    case Apostrophe => 93
    case Comma => 94
    case Dot => 95
    case Slash => 96
    case F13 => 97
    case F14 => 98
    case F15 => 99
    case F16 => 100
    case F17 => 101
    case F18 => 102
    case F19 => 103
    case F20 => 104
    case Command => 105
    case LOption => 106
    case ROption => 107
    case NumpadEquals => 108
    case NumpadEnter => 109
    case NumpadDecimal => 110
  }

  /** Distinct keys occupy distinct slots. */
  lemma IndexInjective(a: DeviceQueryKeycode, b: DeviceQueryKeycode)
    ensures Index(a) == Index(b) <==> a == b
  {
  }

  /** The backend's keyboard state: the keys reported down by the most
      recent poll, over any key type. Reading the physical keyboard is
      outside the model; a poll is given the keys it observed. */
  datatype KeyboardState<K> = KeyboardState(keys: seq<K>)

  /** A fresh keyboard state, before any poll. */
  function DefaultKeyboardState<K>(): (s: KeyboardState<K>)
    ensures GetState(s) == []
  {
    KeyboardState([])
  }

  /** Record the keys observed by a poll, replacing the previous ones. */
  function Poll<K>(s: KeyboardState<K>, observed: seq<K>): (s': KeyboardState<K>)
    ensures GetState(s') == observed
  {
    KeyboardState(observed)
  }

  /** The keys recorded by the most recent poll. */
  function GetState<K>(s: KeyboardState<K>): seq<K>
  {
    s.keys
  }
}
