/**
 * The PS/2 keyboard driver's scancode handling
 * (kernel/arch/x86_64/keyboard.c): the modifier state machine driven by
 * set-1 scancodes, the US keymaps, the LED byte sent to the keyboard,
 * the callback slot and the modifier query.
 *
 * The driver's statics `keyboard_modifiers` and `keyboard_callback` are
 * fields of `KeyboardState`. The modifier byte is kept as its six flags
 * (`Mods`), the only bits the driver ever sets; `ModByte` is the byte
 * itself, and the lemmas state each update as the C's `|=`, `&= ~` or `^=`
 * on that byte. Port output is a trace of the bytes written to
 * the data port, and a call of the registered callback is a trace entry:
 * what the callback itself does is not part of this model.
 */
module Keyboard {
  import opened Wrappers

  /** The KEY_MOD_* bits of keyboard_modifiers. */
  const ModControl: bv8 := 0x01
  const ModShift: bv8 := 0x02
  const ModAlt: bv8 := 0x04
  const ModCapsLock: bv8 := 0x08
  const ModNumLock: bv8 := 0x10
  const ModScrollLock: bv8 := 0x20

  /** Bit 7 of a scancode marks a release. */
  const KeyReleased: bv8 := 0x80

  const KeyLeftControl: bv8 := 0x1D
  const KeyLeftShift: bv8 := 0x2A
  const KeyRightShift: bv8 := 0x36
  const KeyLeftAlt: bv8 := 0x38
  const KeyCapsLock: bv8 := 0x3A
  const KeyNumLock: bv8 := 0x45
  const KeyScrollLock: bv8 := 0x46
  const KeyRightControl: bv8 := 0x61
  const KeyRightAlt: bv8 := 0x64

  /** The SET_LEDS command byte. */
  const SetLeds: bv8 := 0xED

  /** keymap_us: entries past the initialiser are 0. */
  function PlainChar(key: nat): char
  {
    match key
    case 0x01 => 27 as char
    case 0x02 => '1'
    case 0x03 => '2'
    case 0x04 => '3'
    case 0x05 => '4'
    case 0x06 => '5'
    case 0x07 => '6'
    case 0x08 => '7'
    case 0x09 => '8'
    case 0x0A => '9'
    case 0x0B => '0'
    case 0x0C => '-'
    case 0x0D => '='
    case 0x0E => 8 as char
    case 0x0F => '\t'
    case 0x10 => 'q'
    case 0x11 => 'w'
    case 0x12 => 'e'
    case 0x13 => 'r'
    case 0x14 => 't'
    case 0x15 => 'y'
    case 0x16 => 'u'
    case 0x17 => 'i'
    case 0x18 => 'o'
    case 0x19 => 'p'
    case 0x1A => '['
    case 0x1B => ']'
    case 0x1C => '\n'
    case 0x1E => 'a'
    case 0x1F => 's'
    case 0x20 => 'd'
    case 0x21 => 'f'
    case 0x22 => 'g'
    case 0x23 => 'h'
    case 0x24 => 'j'
    case 0x25 => 'k'
    case 0x26 => 'l'
    case 0x27 => ';'
    case 0x28 => '\''
    case 0x29 => '`'
    case 0x2B => '\\'
    case 0x2C => 'z'
    case 0x2D => 'x'
    case 0x2E => 'c'
    case 0x2F => 'v'
    case 0x30 => 'b'
    case 0x31 => 'n'
    case 0x32 => 'm'
    case 0x33 => ','
    case 0x34 => '.'
    case 0x35 => '/'
    case 0x37 => '*'
    case 0x39 => ' '
    case 0x4A => '-'
    case 0x4E => '+'
    case _ => 0 as char
  }

  /** keymap_us_shift. */
  function ShiftChar(key: nat): char
  {
    match key
    case 0x01 => 27 as char
    case 0x02 => '!'
    case 0x03 => '@'
    case 0x04 => '#'
    case 0x05 => '$'
    case 0x06 => '%'
    case 0x07 => '^'
    case 0x08 => '&'
    case 0x09 => '*'
    case 0x0A => '('
    case 0x0B => ')'
    case 0x0C => '_'
    case 0x0D => '+'
    case 0x0E => 8 as char
    case 0x0F => '\t'
    case 0x10 => 'Q'
    case 0x11 => 'W'
    case 0x12 => 'E'
    case 0x13 => 'R'
    case 0x14 => 'T'
    case 0x15 => 'Y'
    case 0x16 => 'U'
    case 0x17 => 'I'
    case 0x18 => 'O'
    case 0x19 => 'P'
    case 0x1A => '{'
    case 0x1B => '}'
    case 0x1C => '\n'
    case 0x1E => 'A'
    case 0x1F => 'S'
    case 0x20 => 'D'
    case 0x21 => 'F'
    case 0x22 => 'G'
    case 0x23 => 'H'
    case 0x24 => 'J'
    case 0x25 => 'K'
    case 0x26 => 'L'
    case 0x27 => ':'
    case 0x28 => '"'
    case 0x29 => '~'
    case 0x2B => '|'
    case 0x2C => 'Z'
    case 0x2D => 'X'
    case 0x2E => 'C'
    case 0x2F => 'V'
    case 0x30 => 'B'
    case 0x31 => 'N'
    case 0x32 => 'M'
    case 0x33 => '<'
    case 0x34 => '>'
    case 0x35 => '?'
    case 0x37 => '*'
    case 0x39 => ' '
    case 0x4A => '-'
    case 0x4E => '+'
    case _ => 0 as char
  }

  predicate IsLower(c: char)
  {
    'a' <= c <= 'z'
  }

  predicate IsUpper(c: char)
  {
    'A' <= c <= 'Z'
  }

  function ToUpper(c: char): char
    requires IsLower(c)
  {
    (c as int - 'a' as int + 'A' as int) as char
  }

  function ToLower(c: char): char
    requires IsUpper(c)
  {
    (c as int - 'A' as int + 'a' as int) as char
  }

  /**
   * The two keymaps agree on which keys are letters: the shifted table
   * holds the capital of each letter of the plain one, and neither table
   * holds a letter of the other case.
   */
  lemma LetterTables(key: nat)
    ensures IsLower(PlainChar(key)) <==> IsUpper(ShiftChar(key))
    ensures IsLower(PlainChar(key)) ==> ShiftChar(key) == ToUpper(PlainChar(key))
    ensures !IsUpper(PlainChar(key)) && !IsLower(ShiftChar(key))
  {
  }

  // ---------------------------------------------------------------------
  // Scancodes
  // ---------------------------------------------------------------------

  function IsRelease(scancode: bv8): bool
  {
    scancode & KeyReleased != 0
  }

  /** scancode & ~KEY_RELEASED. */
  function KeyCode(scancode: bv8): bv8
  {
    scancode & !KeyReleased
  }

  /** A scancode is its key code plus 128 when it reports a release. */
  lemma ScancodeSplit(scancode: bv8)
    ensures KeyCode(scancode) < 128
    ensures scancode as int == KeyCode(scancode) as int + (if IsRelease(scancode) then 128 else 0)
  {
  }

  /** The six KEY_MOD_* flags of keyboard_modifiers. */
  datatype Mods = Mods(control: bool, shift: bool, alt: bool, capsLock: bool, numLock: bool, scrollLock: bool)

  const NoMods := Mods(false, false, false, false, false, false)

  /** keyboard_modifiers as a byte. */
  function ModByte(m: Mods): bv8
  {
    (if m.control then ModControl else 0) | (if m.shift then ModShift else 0)
    | (if m.alt then ModAlt else 0) | (if m.capsLock then ModCapsLock else 0)
    | (if m.numLock then ModNumLock else 0) | (if m.scrollLock then ModScrollLock else 0)
  }

  /**
   * keyboard_modifiers holds nothing but the six flags: each KEY_MOD_* bit
   * is set exactly when its flag is, and the byte determines the flags.
   */
  lemma ModByteFlags(m: Mods, m': Mods)
    ensures ModByte(m) < 0x40
    ensures (ModByte(m) & ModControl != 0 <==> m.control) && (ModByte(m) & ModShift != 0 <==> m.shift)
    ensures (ModByte(m) & ModAlt != 0 <==> m.alt) && (ModByte(m) & ModCapsLock != 0 <==> m.capsLock)
    ensures (ModByte(m) & ModNumLock != 0 <==> m.numLock) && (ModByte(m) & ModScrollLock != 0 <==> m.scrollLock)
    ensures ModByte(m) == ModByte(m') ==> m == m'
  {
  }

  /** The modifier bit a held key (Ctrl, Shift, Alt) drives, or 0. */
  function HeldBit(key: bv8): bv8
  {
    if key == KeyLeftControl || key == KeyRightControl then ModControl
    else if key == KeyLeftShift || key == KeyRightShift then ModShift
    else if key == KeyLeftAlt || key == KeyRightAlt then ModAlt
    else 0
  }

  /** The modifier bit a lock key (Caps, Num, Scroll) toggles, or 0. */
  function LockBit(key: bv8): bv8
  {
    if key == KeyCapsLock then ModCapsLock
    else if key == KeyNumLock then ModNumLock
    else if key == KeyScrollLock then ModScrollLock
    else 0
  }

  /** The flag of a held key set to `down`. */
  function Hold(m: Mods, key: bv8, down: bool): Mods
  {
    if key == KeyLeftControl || key == KeyRightControl then m.(control := down)
    else if key == KeyLeftShift || key == KeyRightShift then m.(shift := down)
    else m.(alt := down)
  }

  /** The flag of a lock key flipped. */
  function Toggle(m: Mods, key: bv8): Mods
  {
    if key == KeyCapsLock then m.(capsLock := !m.capsLock)
    else if key == KeyNumLock then m.(numLock := !m.numLock)
    else m.(scrollLock := !m.scrollLock)
  }

  /** The effect of one scancode: new modifiers, the character, LEDs sent. */
  datatype Outcome = Outcome(mods: Mods, character: char, ledsSent: bool)

  /** The character of a pressed regular key: Shift picks the table, Caps Lock flips letters. */
  function Translate(m: Mods, key: bv8): char
  {
    var c := if m.shift then ShiftChar(key as nat) else PlainChar(key as nat);
    if !m.capsLock then c
    else if IsLower(c) then ToUpper(c)
    else if IsUpper(c) then ToLower(c)
    else c
  }

  /** keyboard_process_scancode on the modifier state `m`. */
  function Process(m: Mods, scancode: bv8): Outcome
  {
    var released := IsRelease(scancode);
    var key := KeyCode(scancode);
    if HeldBit(key) != 0 then Outcome(Hold(m, key, !released), 0 as char, false)
    else if LockBit(key) != 0 then
      if released then Outcome(m, 0 as char, false)
      else Outcome(Toggle(m, key), 0 as char, true)
    else if released || key >= 128 then Outcome(m, 0 as char, false)
    else Outcome(m, Translate(m, key), false)
  }

  /**
   * Ctrl, Shift and Alt: a press or-s their bit into keyboard_modifiers, a
   * release and-s it out; no other bit changes and no character results.
   */
  lemma HeldKeys(m: Mods, scancode: bv8)
    requires HeldBit(KeyCode(scancode)) != 0
    ensures var r := Process(m, scancode); var bit := HeldBit(KeyCode(scancode));
      && ModByte(r.mods) == (if IsRelease(scancode) then ModByte(m) & !bit else ModByte(m) | bit)
      && r.character == 0 as char && !r.ledsSent
  {
  }

  /**
   * Caps, Num and Scroll Lock: a press xor-s their bit and sends the LEDs;
   * a release does nothing.
   */
  lemma LockKeys(m: Mods, scancode: bv8)
    requires LockBit(KeyCode(scancode)) != 0
    ensures var r := Process(m, scancode); var bit := LockBit(KeyCode(scancode));
      && (IsRelease(scancode) ==> r == Outcome(m, 0 as char, false))
      && (!IsRelease(scancode) ==> ModByte(r.mods) == ModByte(m) ^ bit && r.character == 0 as char && r.ledsSent)
  {
  }

  /** Any other key leaves the modifiers alone; a release yields no character. */
  lemma OtherKeys(m: Mods, scancode: bv8)
    requires HeldBit(KeyCode(scancode)) == 0 && LockBit(KeyCode(scancode)) == 0
    ensures var r := Process(m, scancode);
      && r.mods == m && !r.ledsSent
      && (IsRelease(scancode) ==> r.character == 0 as char)
  {
  }

  /**
   * A letter key gives the capital letter exactly when one of Shift and
   * Caps Lock is active, and the same letter either way.
   */
  lemma LetterCase(m: Mods, scancode: bv8)
    requires HeldBit(KeyCode(scancode)) == 0 && LockBit(KeyCode(scancode)) == 0
    requires !IsRelease(scancode) && IsLower(PlainChar(KeyCode(scancode) as nat))
    ensures var c := Process(m, scancode).character; var letter := PlainChar(KeyCode(scancode) as nat);
      && (IsUpper(c) <==> m.shift != m.capsLock)
      && (c == letter || c == ToUpper(letter))
  {
    LetterTables(KeyCode(scancode) as nat);
  }

  /** Caps Lock does not affect keys that are not letters. */
  lemma SymbolKeys(m: Mods, scancode: bv8)
    requires HeldBit(KeyCode(scancode)) == 0 && LockBit(KeyCode(scancode)) == 0
    requires !IsRelease(scancode) && !IsLower(PlainChar(KeyCode(scancode) as nat))
    ensures Process(m, scancode).character
      == if m.shift then ShiftChar(KeyCode(scancode) as nat) else PlainChar(KeyCode(scancode) as nat)
  {
    LetterTables(KeyCode(scancode) as nat);
  }

  // ---------------------------------------------------------------------
  // LEDs
  // ---------------------------------------------------------------------

  /** The LED byte of keyboard_update_leds: 1 Scroll, 2 Num, 4 Caps Lock. */
  function LedByte(m: Mods): (r: bv8)
    ensures r < 8
  {
    (if ModByte(m) & ModScrollLock != 0 then 1 else 0)
    | (if ModByte(m) & ModNumLock != 0 then 2 else 0)
    | (if ModByte(m) & ModCapsLock != 0 then 4 else 0)
  }

  /** The LED byte is bits 5, 4 and 3 of keyboard_modifiers moved to bits 0, 1 and 2. */
  lemma LedBits(m: Mods)
    ensures LedByte(m) == ((ModByte(m) >> 5) & 1) | ((ModByte(m) >> 3) & 2) | ((ModByte(m) >> 1) & 4)
  {
  }

  // ---------------------------------------------------------------------
  // The driver state
  // ---------------------------------------------------------------------

  /** One call of the registered callback: which one, with what. */
  datatype Event = Event(callback: nat, scancode: bv8, character: char)

  class KeyboardState {
    /** keyboard_modifiers. */
    var mods: Mods
    /** keyboard_callback: a function pointer, None for NULL. */
    var callback: Option<nat>
    /** The bytes written to the data port 0x60. */
    var dataPort: seq<bv8>
    /** The calls of the callback, oldest first. */
    var events: seq<Event>

    constructor ()
      ensures mods == NoMods && callback == None && dataPort == [] && events == []
    {
      mods, callback, dataPort, events := NoMods, None, [], [];
    }

    /** keyboard_update_leds: the SET_LEDS command, then the LED byte. */
    method UpdateLeds()
      modifies this
      ensures dataPort == old(dataPort) + [SetLeds, LedByte(mods)]
      ensures mods == old(mods) && callback == old(callback) && events == old(events)
    {
      var leds: bv8 := 0;
      if ModByte(mods) & ModScrollLock != 0 {
        leds := leds | 1;
      }
      if ModByte(mods) & ModNumLock != 0 {
        leds := leds | 2;
      }
      if ModByte(mods) & ModCapsLock != 0 {
        leds := leds | 4;
      }
      dataPort := dataPort + [SetLeds, leds];
    }

    /** keyboard_process_scancode. */
    method ProcessScancode(scancode: bv8)
      modifies this
      ensures var o := Process(old(mods), scancode);
        && mods == o.mods
        && dataPort == old(dataPort) + (if o.ledsSent then [SetLeds, LedByte(o.mods)] else [])
        && events == old(events) + (if callback.Some? then [Event(callback.value, scancode, o.character)] else [])
      ensures callback == old(callback)
    {
      var released := scancode & KeyReleased != 0;
      var key := scancode & !KeyReleased;
      var character := 0 as char;
      if key == KeyLeftControl || key == KeyRightControl {
        mods := mods.(control := !released);
      } else if key == KeyLeftShift || key == KeyRightShift {
        mods := mods.(shift := !released);
      } else if key == KeyLeftAlt || key == KeyRightAlt {
        mods := mods.(alt := !released);
      } else if key == KeyCapsLock {
        if !released {
          mods := mods.(capsLock := !mods.capsLock);
          UpdateLeds();
        }
      } else if key == KeyNumLock {
        if !released {
          mods := mods.(numLock := !mods.numLock);
          UpdateLeds();
        }
      } else if key == KeyScrollLock {
        if !released {
          mods := mods.(scrollLock := !mods.scrollLock);
          UpdateLeds();
        }
      } else if !released && key < 128 {
        character := RegularKey(key);
      }
      Deliver(scancode, character);
    }

    /** The character of a pressed regular key, by the keymaps and Caps Lock. */
    method RegularKey(key: bv8) returns (character: char)
      ensures character == Translate(mods, key)
    {
      if mods.shift {
        character := ShiftChar(key as nat);
      } else {
        character := PlainChar(key as nat);
      }
      if mods.capsLock {
        if 'a' <= character <= 'z' {
          character := (character as int - 'a' as int + 'A' as int) as char;
        } else if 'A' <= character <= 'Z' {
          character := (character as int - 'A' as int + 'a' as int) as char;
        }
      }
    }

    /** `if (keyboard_callback) keyboard_callback(scancode, character)`. */
    method Deliver(scancode: bv8, character: char)
      modifies this
      ensures events == old(events) + (if callback.Some? then [Event(callback.value, scancode, character)] else [])
      ensures mods == old(mods) && callback == old(callback) && dataPort == old(dataPort)
    {
      if callback.Some? {
        events := events + [Event(callback.value, scancode, character)];
      }
    }

    /** keyboard_register_callback: installs the new callback, returns the old one. */
    method RegisterCallback(cb: Option<nat>) returns (previous: Option<nat>)
      modifies this
      ensures previous == old(callback) && callback == cb
      ensures mods == old(mods) && dataPort == old(dataPort) && events == old(events)
    {
      previous := callback;
      callback := cb;
    }

    /** keyboard_is_modifier_active. */
    function IsModifierActive(modifier: bv8): (r: bool)
      reads this
      ensures modifier == ModShift ==> (r <==> mods.shift)
      ensures modifier == ModControl ==> (r <==> mods.control)
      ensures modifier == ModAlt ==> (r <==> mods.alt)
      ensures modifier == ModCapsLock ==> (r <==> mods.capsLock)
      ensures modifier == ModNumLock ==> (r <==> mods.numLock)
      ensures modifier == ModScrollLock ==> (r <==> mods.scrollLock)
    {
      ModByte(mods) & modifier != 0
    }

    /** keyboard_get_modifiers: the byte holds only KEY_MOD_* bits. */
    function GetModifiers(): (r: bv8)
      reads this
      ensures r < 0x40 && r & !0x3F == 0
    {
      ModByteFlags(mods, mods);
      ModByte(mods)
    }
  }
}
