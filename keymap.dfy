/**
 * The scancode table of the SDL backend: a literal of 77 key names indexed by
 * SDL scancode, grown to 256 entries at package initialisation, after which
 * the five modifier slots are written.
 */
module Keymap {

  /** The portable key names of the window-driver interface. `Blank` is the
      empty name "" that the table holds at unassigned scancodes. */
  datatype Key =
    | Blank
    | KeyA | KeyB | KeyC | KeyD | KeyE | KeyF | KeyG | KeyH | KeyI | KeyJ
    | KeyK | KeyL | KeyM | KeyN | KeyO | KeyP | KeyQ | KeyR | KeyS | KeyT
    | KeyU | KeyV | KeyW | KeyX | KeyY | KeyZ
    | Key1 | Key2 | Key3 | Key4 | Key5 | Key6 | Key7 | Key8 | Key9 | Key0
    | KeyReturn | KeyEscape | KeyBackspace | KeyTab | KeySpace | KeyMinus
    | KeyEqual | KeyLeftBracket | KeyRightBracket | KeyBackslash
    | KeySemicolon | KeyQuote | KeyBackTick | KeyComma | KeyPeriod | KeySlash
    | KeyF1 | KeyF2 | KeyF3 | KeyF4 | KeyF5 | KeyF6 | KeyF7 | KeyF8
    | KeyF9 | KeyF10 | KeyF11 | KeyF12
    | KeyInsert | KeyDelete
    | KeyLeftControl | KeyLeftShift | KeyLeftAlt | KeyRightShift | KeyRightAlt

  /** An SDL scancode is an unsigned 32-bit integer. */
  type Scancode = x: int | 0 <= x < 0x1_0000_0000

  const LiteralSize: nat := 77
  const TableSize: nat := 256

  /** The letters, at scancodes 4..29. */
  function Letters(): (s: seq<Key>)
    ensures |s| == 26
  {
    [KeyA, KeyB, KeyC, KeyD, KeyE, KeyF, KeyG, KeyH, KeyI, KeyJ, KeyK, KeyL, KeyM,
     KeyN, KeyO, KeyP, KeyQ, KeyR, KeyS, KeyT, KeyU, KeyV, KeyW, KeyX, KeyY, KeyZ]
  }

  /** The digits 1..9 and then 0, at scancodes 30..39. */
  function Digits(): (s: seq<Key>)
    ensures |s| == 10
  {
    [Key1, Key2, Key3, Key4, Key5, Key6, Key7, Key8, Key9, Key0]
  }

  /** The function keys, at scancodes 58..69. */
  function FunctionKeys(): (s: seq<Key>)
    ensures |s| == 12
  {
    [KeyF1, KeyF2, KeyF3, KeyF4, KeyF5, KeyF6, KeyF7, KeyF8, KeyF9, KeyF10, KeyF11, KeyF12]
  }

  /** `n` unassigned slots. */
  function Blanks(n: nat): (s: seq<Key>)
    ensures |s| == n && forall i :: 0 <= i < n ==> s[i] == Blank
  {
    seq(n, _ => Blank)
  }

  /** The table literal, before initialisation pads it, in its groups. */
  function Literal(): (s: seq<Key>)
    ensures |s| == LiteralSize
  {
    Blanks(4)                                                          //  0..3
    + Letters()                                                        //  4..29
    + Digits()                                                         // 30..39
    + [KeyReturn, KeyEscape, KeyBackspace, KeyTab, KeySpace, KeyMinus,
       KeyEqual, KeyLeftBracket, KeyRightBracket, KeyBackslash]        // 40..49
    + Blanks(1)                                                        // 50
    + [KeySemicolon, KeyQuote, KeyBackTick, KeyComma, KeyPeriod, KeySlash] // 51..56
    + Blanks(1)                                                        // 57
    + FunctionKeys()                                                   // 58..69
    + Blanks(3) + [KeyInsert] + Blanks(2) + [KeyDelete]                // 70..76
  }

  /** The slots that initialisation assigns after padding, with their keys. */
  predicate IsModifierSlot(i: int)
  {
    i == 224 || i == 225 || i == 226 || i == 229 || i == 230
  }

  /** The table as initialisation leaves it: the literal, padded with blank
      names to 256 entries, with the five modifier slots written. */
  function Table(): (t: seq<Key>)
    ensures |t| == TableSize
  {
    (Literal() + Blanks(TableSize - LiteralSize))
      [224 := KeyLeftControl]
      [225 := KeyLeftShift]
      [226 := KeyLeftAlt]
      [229 := KeyRightShift]
      [230 := KeyRightAlt]
  }

  /** Package initialisation: appends blank names up to 256 entries, then
      writes the modifier slots in place. */
  method Init() returns (keys: array<Key>)
    ensures keys.Length == TableSize
    ensures keys[..] == Table()
  {
    var literal := Literal();
    keys := new Key[TableSize];
    // the literal's entries come first; the padding follows them
    var i := 0;
    while i < LiteralSize
      invariant 0 <= i <= LiteralSize
      invariant keys[..i] == literal[..i]
    {
      keys[i] := literal[i];
      i := i + 1;
    }
    // ... followed by the zero-valued padding
    while i < TableSize
      invariant LiteralSize <= i <= TableSize
      invariant keys[..LiteralSize] == literal
      invariant forall j :: LiteralSize <= j < i ==> keys[j] == Blank
    {
      keys[i] := Blank;
      i := i + 1;
    }
    assert keys[..] == literal + Blanks(TableSize - LiteralSize);
    keys[224] := KeyLeftControl;
    keys[225] := KeyLeftShift;
    keys[226] := KeyLeftAlt;
    keys[229] := KeyRightShift;
    keys[230] := KeyRightAlt;
  }

  lemma TableLength()
    ensures |Table()| == TableSize
  {
  }

  /** Scancodes 0 to 3 have no name. */
  lemma ReservedLowCodes()
    ensures forall i :: 0 <= i < 4 ==> Table()[i] == Blank
  {
  }

  /** Letters at 4..29, the digits 1..9 at 30..38, and 0 at 39. */
  lemma LettersAndDigits()
    ensures Table()[4..30] == Letters()
    ensures Table()[30..40] == Digits()
  {
  }

  /** Function keys at 58..69, Insert at 73, Delete at 76. */
  lemma FunctionAndEditingKeys()
    ensures Table()[58..70] == FunctionKeys()
    ensures Table()[73] == KeyInsert && Table()[76] == KeyDelete
  {
  }

  /** The literal's reserved slots stay without a name. */
  lemma ReservedLiteralSlots()
    ensures Table()[50] == Blank && Table()[57] == Blank
    ensures Table()[70] == Blank && Table()[71] == Blank && Table()[72] == Blank
    ensures Table()[74] == Blank && Table()[75] == Blank
  {
  }

  /** The modifier slots, and every other padded index is blank. */
  lemma ModifierSlots()
    ensures Table()[224] == KeyLeftControl && Table()[225] == KeyLeftShift
    ensures Table()[226] == KeyLeftAlt
    ensures Table()[229] == KeyRightShift && Table()[230] == KeyRightAlt
    ensures forall i :: LiteralSize <= i < TableSize && !IsModifierSlot(i) ==> Table()[i] == Blank
  {
  }

  /** Initialisation keeps the literal and writes nothing but the padding and
      the five modifier slots. */
  lemma InitKeepsLiteral()
    ensures Table()[..LiteralSize] == Literal()
    ensures forall i :: 0 <= i < TableSize && !IsModifierSlot(i) ==>
      Table()[i] == if i < LiteralSize then Literal()[i] else Blank
  {
  }
}
