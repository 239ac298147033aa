/**
 The keyboard decoder: scancode set 1 bytes in, characters out, with a held-shift flag and a
 pending-0xE0 flag.
 */
module Keyboard {
  import opened Machine

  const KEYS: nat := 84

  /** The unshifted character of a key, 0 for a key without one. */
  function ScNormal(key: nat): byte {
    match key
    case 0x01 => 0x1B case 0x02 => 0x31 case 0x03 => 0x32 case 0x04 => 0x33 case 0x05 => 0x34
    case 0x06 => 0x35 case 0x07 => 0x36 case 0x08 => 0x37 case 0x09 => 0x38 case 0x0A => 0x39
    case 0x0B => 0x30 case 0x0C => 0x2D case 0x0D => 0x3D case 0x0E => 0x08 case 0x0F => 0x09
    case 0x10 => 0x71 case 0x11 => 0x77 case 0x12 => 0x65 case 0x13 => 0x72 case 0x14 => 0x74
    case 0x15 => 0x79 case 0x16 => 0x75 case 0x17 => 0x69 case 0x18 => 0x6F case 0x19 => 0x70
    case 0x1A => 0x5B case 0x1B => 0x5D case 0x1C => 0x0A case 0x1E => 0x61 case 0x1F => 0x73
    case 0x20 => 0x64 case 0x21 => 0x66 case 0x22 => 0x67 case 0x23 => 0x68 case 0x24 => 0x6A
    case 0x25 => 0x6B case 0x26 => 0x6C case 0x27 => 0x3B case 0x28 => 0x27 case 0x29 => 0x60
    case 0x2B => 0x5C case 0x2C => 0x7A case 0x2D => 0x78 case 0x2E => 0x63 case 0x2F => 0x76
    case 0x30 => 0x62 case 0x31 => 0x6E case 0x32 => 0x6D case 0x33 => 0x2C case 0x34 => 0x2E
    case 0x35 => 0x2F case 0x37 => 0x2A case 0x39 => 0x20 case 0x47 => 0x37 case 0x48 => 0x38
    case 0x49 => 0x39 case 0x4A => 0x2D case 0x4B => 0x34 case 0x4C => 0x35 case 0x4D => 0x36
    case 0x4E => 0x2B case 0x4F => 0x31 case 0x50 => 0x32 case 0x51 => 0x33 case 0x52 => 0x30
    case 0x53 => 0x2E
    case _ => 0
  }

  /** The shifted character. */
  function ScShift(key: nat): byte {
    match key
    case 0x01 => 0x1B case 0x02 => 0x21 case 0x03 => 0x40 case 0x04 => 0x23 case 0x05 => 0x24
    case 0x06 => 0x25 case 0x07 => 0x5E case 0x08 => 0x26 case 0x09 => 0x2A case 0x0A => 0x28
    case 0x0B => 0x29 case 0x0C => 0x5F case 0x0D => 0x2B case 0x0E => 0x08 case 0x0F => 0x09
    case 0x10 => 0x51 case 0x11 => 0x57 case 0x12 => 0x45 case 0x13 => 0x52 case 0x14 => 0x54
    case 0x15 => 0x59 case 0x16 => 0x55 case 0x17 => 0x49 case 0x18 => 0x4F case 0x19 => 0x50
    case 0x1A => 0x7B case 0x1B => 0x7D case 0x1C => 0x0A case 0x1E => 0x41 case 0x1F => 0x53
    case 0x20 => 0x44 case 0x21 => 0x46 case 0x22 => 0x47 case 0x23 => 0x48 case 0x24 => 0x4A
    case 0x25 => 0x4B case 0x26 => 0x4C case 0x27 => 0x3A case 0x28 => 0x22 case 0x29 => 0x7E
    case 0x2B => 0x7C case 0x2C => 0x5A case 0x2D => 0x58 case 0x2E => 0x43 case 0x2F => 0x56
    case 0x30 => 0x42 case 0x31 => 0x4E case 0x32 => 0x4D case 0x33 => 0x3C case 0x34 => 0x3E
    case 0x35 => 0x3F case 0x37 => 0x2A case 0x39 => 0x20 case 0x4A => 0x2D case 0x4C => 0x35
    case 0x4E => 0x2B
    case _ => 0
  }

  function Table(shift: bool, key: nat): byte {
    if shift then ScShift(key) else ScNormal(key)
  }

  const LEFT_SHIFT: byte := 0x2A
  const RIGHT_SHIFT: byte := 0x36
  const PREFIX: byte := 0xE0
  const RELEASE: byte := 0x80

  datatype State = State(shift: bool, extended: bool)

  const IDLE := State(false, false)

  /** The flags after one scancode. */
  function Next(s: State, sc: byte): State {
    if sc == PREFIX then s.(extended := true)
    else if s.extended then s.(extended := false)
    else if sc % RELEASE == LEFT_SHIFT || sc % RELEASE == RIGHT_SHIFT then s.(shift := sc < RELEASE)
    else s
  }

  /** The character a scancode produces, 0 for none. */
  function CharOf(s: State, sc: byte): byte {
    if sc == PREFIX || s.extended then 0
    else if sc % RELEASE == LEFT_SHIFT || sc % RELEASE == RIGHT_SHIFT then 0
    else if sc >= RELEASE || sc % RELEASE >= KEYS then 0
    else Table(s.shift, sc % RELEASE)
  }

  /** The flags after all of `codes`. */
  function After(s: State, codes: seq<byte>): State
    decreases |codes|
  {
    if codes == [] then s else After(Next(s, codes[0]), codes[1..])
  }

  /** The characters they produce. */
  function Chars(s: State, codes: seq<byte>): seq<byte>
    decreases |codes|
  {
    if codes == [] then []
    else
      var c := CharOf(s, codes[0]);
      (if c == 0 then [] else [c]) + Chars(Next(s, codes[0]), codes[1..])
  }

  class Keyboard {
    var shiftHeld: bool
    var extended: bool
    /** Scancodes the controller has yet to deliver. */
    var codes: seq<byte>

    ghost function Flags(): State
      reads this
    {
      State(shiftHeld, extended)
    }

    constructor (codes: seq<byte>)
      ensures Flags() == IDLE && this.codes == codes
    {
      shiftHeld, extended := false, false;
      this.codes := codes;
    }

    method KbdProcess(sc: byte) returns (c: byte)
      modifies this`shiftHeld, this`extended
      ensures Flags() == Next(old(Flags()), sc) && c == CharOf(old(Flags()), sc)
    {
      if sc == PREFIX {
        extended := true;
        return 0;
      }
      if extended {
        extended := false;
        return 0;
      }
      var release, key := sc >= RELEASE, sc % RELEASE;
      if key == LEFT_SHIFT || key == RIGHT_SHIFT {
        shiftHeld := !release;
        return 0;
      }
      if release || key >= KEYS {
        return 0;
      }
      return if shiftHeld then ScShift(key) else ScNormal(key);
    }

    /**
     The next character: calls drain the stream and answer, one by one, what it decodes to.
     `None` when the controller has nothing more to deliver.
     */
    method GetChar() returns (c: Option<byte>)
      modifies this
      ensures var cs := Chars(old(Flags()), old(codes));
              if cs == [] then c == None && codes == [] else c == Some(cs[0]) && Chars(Flags(), codes) == cs[1..]
      ensures After(Flags(), codes) == After(old(Flags()), old(codes))
    {
      while codes != []
        invariant Chars(Flags(), codes) == Chars(old(Flags()), old(codes))
        invariant After(Flags(), codes) == After(old(Flags()), old(codes))
        decreases |codes|
      {
        var sc := codes[0];
        codes := codes[1..];
        var ch := KbdProcess(sc);
        if ch != 0 {
          return Some(ch);
        }
      }
      return None;
    }
  }

  /* Typing. */

  datatype Key = Key(key: nat, shift: bool)

  /** Printable ASCII, newline, tab and backspace. */
  predicate Typeable(c: byte) {
    0x20 <= c < 0x7F || c == 8 || c == 9 || c == 10
  }

  /** Keys from `first` on carry `row`. */
  predicate Carries(shift: bool, first: nat, row: string) {
    forall i :: 0 <= i < |row| ==> Table(shift, first + i) == row[i] as int
  }

  lemma DigitsRow()
    ensures Carries(false, 0x02, "1234567890-=")
  {
  }

  lemma DigitsShifted()
    ensures Carries(true, 0x02, "!@#$%^&*()_+")
  {
  }

  lemma QwertyRow()
    ensures Carries(false, 0x10, "qwertyuiop[]")
  {
  }

  lemma QwertyShifted()
    ensures Carries(true, 0x10, "QWERTYUIOP{}")
  {
  }

  lemma HomeRow()
    ensures Carries(false, 0x1E, "asdfghjkl;'`")
  {
  }

  lemma HomeShifted()
    ensures Carries(true, 0x1E, "ASDFGHJKL:\"~")
  {
  }

  lemma BottomRow()
    ensures Carries(false, 0x2B, "\\zxcvbnm,./")
  {
  }

  lemma BottomShifted()
    ensures Carries(true, 0x2B, "|ZXCVBNM<>?")
  {
  }

  lemma KeypadRow()
    ensures Carries(false, 0x47, "789-456+1230.")
    ensures Carries(true, 0x4A, "-") && Carries(true, 0x4C, "5") && Carries(true, 0x4E, "+")
  {
  }

  lemma OddKeys(shift: bool)
    ensures Carries(shift, 0x37, "*") && Carries(shift, 0x39, " ")
    ensures Table(shift, 0x01) == 0x1B && Table(shift, 0x0E) == 0x08
    ensures Table(shift, 0x0F) == 0x09 && Table(shift, 0x1C) == 0x0A
  {
  }

  /** A key with a character of its own. */
  predicate HasTop(shift: bool, key: nat) {
    || 0x01 <= key <= 0x1C || 0x1E <= key <= 0x29 || 0x2B <= key <= 0x35 || key == 0x37 || key == 0x39
    || (if shift then key == 0x4A || key == 0x4C || key == 0x4E else 0x47 <= key <= 0x53)
  }

  lemma BlankKeys(shift: bool, key: nat)
    ensures Table(shift, key) != 0 <==> HasTop(shift, key)
  {
  }

  /** The key tops, row by row, the keypad last, unshifted and shifted; every other key has no character. */
  lemma KeyTops(shift: bool, key: nat)
    ensures Carries(false, 0x02, "1234567890-=") && Carries(true, 0x02, "!@#$%^&*()_+")
    ensures Carries(false, 0x10, "qwertyuiop[]") && Carries(true, 0x10, "QWERTYUIOP{}")
    ensures Carries(false, 0x1E, "asdfghjkl;'`") && Carries(true, 0x1E, "ASDFGHJKL:\"~")
    ensures Carries(false, 0x2B, "\\zxcvbnm,./") && Carries(true, 0x2B, "|ZXCVBNM<>?")
    ensures Carries(false, 0x47, "789-456+1230.")
    ensures Carries(true, 0x4A, "-") && Carries(true, 0x4C, "5") && Carries(true, 0x4E, "+")
    ensures Carries(shift, 0x37, "*") && Carries(shift, 0x39, " ")
    ensures Table(shift, 0x01) == 0x1B && Table(shift, 0x0E) == 0x08
    ensures Table(shift, 0x0F) == 0x09 && Table(shift, 0x1C) == 0x0A
    ensures Table(shift, key) != 0 <==> HasTop(shift, key)
  {
    hide Carries, Table, HasTop;
    DigitsRow();
    DigitsShifted();
    QwertyRow();
    QwertyShifted();
    HomeRow();
    HomeShifted();
    BottomRow();
    BottomShifted();
    KeypadRow();
    OddKeys(shift);
    BlankKeys(shift, key);
  }

  /** The key a typist presses for a character, and whether shift is held. */
  function KeyFor(c: byte): Key {
    if c < 0x30 then KeyFor20(c)
    else if c < 0x40 then KeyFor30(c)
    else if c < 0x50 then KeyFor40(c)
    else if c < 0x60 then KeyFor50(c)
    else if c < 0x70 then KeyFor60(c)
    else KeyFor70(c)
  }

  function KeyFor20(c: byte): Key {
    match c
    case 0x08 => Key(0x0E, false) case 0x09 => Key(0x0F, false) case 0x0A => Key(0x1C, false) case 0x20 => Key(0x39, false)
    case 0x21 => Key(0x02, true) case 0x22 => Key(0x28, true) case 0x23 => Key(0x04, true) case 0x24 => Key(0x05, true)
    case 0x25 => Key(0x06, true) case 0x26 => Key(0x08, true) case 0x27 => Key(0x28, false) case 0x28 => Key(0x0A, true)
    case 0x29 => Key(0x0B, true) case 0x2A => Key(0x37, false) case 0x2B => Key(0x4E, false) case 0x2C => Key(0x33, false)
    case 0x2D => Key(0x0C, false) case 0x2E => Key(0x34, false) case 0x2F => Key(0x35, false)
    case _ => Key(0, false)
  }

  function KeyFor30(c: byte): Key {
    match c
    case 0x30 => Key(0x0B, false) case 0x31 => Key(0x02, false) case 0x32 => Key(0x03, false) case 0x33 => Key(0x04, false)
    case 0x34 => Key(0x05, false) case 0x35 => Key(0x06, false) case 0x36 => Key(0x07, false) case 0x37 => Key(0x08, false)
    case 0x38 => Key(0x09, false) case 0x39 => Key(0x0A, false) case 0x3A => Key(0x27, true) case 0x3B => Key(0x27, false)
    case 0x3C => Key(0x33, true) case 0x3D => Key(0x0D, false) case 0x3E => Key(0x34, true) case 0x3F => Key(0x35, true)
    case _ => Key(0, false)
  }

  function KeyFor40(c: byte): Key {
    match c
    case 0x40 => Key(0x03, true) case 0x41 => Key(0x1E, true) case 0x42 => Key(0x30, true) case 0x43 => Key(0x2E, true)
    case 0x44 => Key(0x20, true) case 0x45 => Key(0x12, true) case 0x46 => Key(0x21, true) case 0x47 => Key(0x22, true)
    case 0x48 => Key(0x23, true) case 0x49 => Key(0x17, true) case 0x4A => Key(0x24, true) case 0x4B => Key(0x25, true)
    case 0x4C => Key(0x26, true) case 0x4D => Key(0x32, true) case 0x4E => Key(0x31, true) case 0x4F => Key(0x18, true)
    case _ => Key(0, false)
  }

  function KeyFor50(c: byte): Key {
    match c
    case 0x50 => Key(0x19, true) case 0x51 => Key(0x10, true) case 0x52 => Key(0x13, true) case 0x53 => Key(0x1F, true)
    case 0x54 => Key(0x14, true) case 0x55 => Key(0x16, true) case 0x56 => Key(0x2F, true) case 0x57 => Key(0x11, true)
    case 0x58 => Key(0x2D, true) case 0x59 => Key(0x15, true) case 0x5A => Key(0x2C, true) case 0x5B => Key(0x1A, false)
    case 0x5C => Key(0x2B, false) case 0x5D => Key(0x1B, false) case 0x5E => Key(0x07, true) case 0x5F => Key(0x0C, true)
    case _ => Key(0, false)
  }

  function KeyFor60(c: byte): Key {
    match c
    case 0x60 => Key(0x29, false) case 0x61 => Key(0x1E, false) case 0x62 => Key(0x30, false) case 0x63 => Key(0x2E, false)
    case 0x64 => Key(0x20, false) case 0x65 => Key(0x12, false) case 0x66 => Key(0x21, false) case 0x67 => Key(0x22, false)
    case 0x68 => Key(0x23, false) case 0x69 => Key(0x17, false) case 0x6A => Key(0x24, false) case 0x6B => Key(0x25, false)
    case 0x6C => Key(0x26, false) case 0x6D => Key(0x32, false) case 0x6E => Key(0x31, false) case 0x6F => Key(0x18, false)
    case _ => Key(0, false)
  }

  function KeyFor70(c: byte): Key {
    match c
    case 0x70 => Key(0x19, false) case 0x71 => Key(0x10, false) case 0x72 => Key(0x13, false) case 0x73 => Key(0x1F, false)
    case 0x74 => Key(0x14, false) case 0x75 => Key(0x16, false) case 0x76 => Key(0x2F, false) case 0x77 => Key(0x11, false)
    case 0x78 => Key(0x2D, false) case 0x79 => Key(0x15, false) case 0x7A => Key(0x2C, false) case 0x7B => Key(0x1A, true)
    case 0x7C => Key(0x2B, true) case 0x7D => Key(0x1B, true) case 0x7E => Key(0x29, true)
    case _ => Key(0, false)
  }

  predicate KeyRight(c: byte) {
    KeyFor(c).key < KEYS && Table(KeyFor(c).shift, KeyFor(c).key) == c
  }

  lemma KeysRight00(c: byte)
    requires 0x08 <= c < 0x0B
    ensures KeyRight(c)
  {
  }

  lemma KeysRight20(c: byte)
    requires 0x20 <= c < 0x30
    ensures KeyRight(c)
  {
  }

  lemma KeysRight30(c: byte)
    requires 0x30 <= c < 0x40
    ensures KeyRight(c)
  {
  }

  lemma KeysRight40(c: byte)
    requires 0x40 <= c < 0x50
    ensures KeyRight(c)
  {
  }

  lemma KeysRight50(c: byte)
    requires 0x50 <= c < 0x60
    ensures KeyRight(c)
  {
  }

  lemma KeysRight60(c: byte)
    requires 0x60 <= c < 0x70
    ensures KeyRight(c)
  {
  }

  lemma KeysRight70(c: byte)
    requires 0x70 <= c < 0x7F
    ensures KeyRight(c)
  {
  }

  lemma KeyForIsRight(c: byte)
    requires Typeable(c)
    ensures KeyRight(c)
  {
    hide KeyRight;
    if c < 0x0B {
      KeysRight00(c);
    } else if c < 0x30 {
      KeysRight20(c);
    } else if c < 0x40 {
      KeysRight30(c);
    } else if c < 0x50 {
      KeysRight40(c);
    } else if c < 0x60 {
      KeysRight50(c);
    } else if c < 0x70 {
      KeysRight60(c);
    } else {
      KeysRight70(c);
    }
  }

  const ESCAPE: byte := 0x1B

  /** Nothing but typeable characters and escape is in the tables. */
  lemma TableGives(shift: bool, key: nat)
    ensures Table(shift, key) == 0 || Table(shift, key) == ESCAPE || Typeable(Table(shift, key))
  {
  }

  /**
   What happens at the keyboard: a key goes down -- once, or again and again while it is held --
   or comes up, shift keys included, or a key with an 0xE0 code does either, the prefix sent once
   or more.
   */
  datatype Event = Pressed(key: byte) | Released(key: byte) | Prefixed(more: nat, code: byte) {
    predicate Valid() {
      match this
      case Pressed(key) => key < 0x80
      case Released(key) => key < 0x80 && key != 0x60
      case Prefixed(_, code) => code != 0xE0
    }

    function Codes(): seq<byte>
      requires Valid()
    {
      match this
      case Pressed(key) => [key]
      case Released(key) => [key + 0x80]
      case Prefixed(more, code) => [0xE0] + Prefixes(more) + [code]
    }

    /** The character of a key going down, with shift held or not. */
    function Typed(held: bool): seq<byte> {
      if Pressed? && !IsShift(key) && Table(held, key) != 0 then [Table(held, key)] else []
    }
  }

  predicate IsShift(key: byte) {
    key == 0x2A || key == 0x36
  }

  /** The prefix repeated. */
  function Prefixes(n: nat): seq<byte> {
    seq(n, _ => 0xE0)
  }

  predicate AllValid(events: seq<Event>) {
    forall e :: e in events ==> e.Valid()
  }

  function Encode(events: seq<Event>): seq<byte>
    requires AllValid(events)
    decreases |events|
  {
    if events == [] then [] else events[0].Codes() + Encode(events[1..])
  }

  /* What is typed: shift is held while either shift key is down. */

  datatype Shifts = Shifts(left: bool, right: bool) {
    predicate Held() {
      left || right
    }

    function After(e: Event): Shifts {
      match e
      case Pressed(key) => Shifts(left || key == 0x2A, right || key == 0x36)
      case Released(key) => Shifts(left && key != 0x2A, right && key != 0x36)
      case Prefixed(_, _) => this
    }
  }

  const NO_SHIFT := Shifts(false, false)

  function Text(s: Shifts, events: seq<Event>): seq<byte>
    decreases |events|
  {
    if events == [] then [] else events[0].Typed(s.Held()) + Text(s.After(events[0]), events[1..])
  }

  function ShiftsAfter(s: Shifts, events: seq<Event>): Shifts
    decreases |events|
  {
    if events == [] then s else ShiftsAfter(s.After(events[0]), events[1..])
  }

  /* What is decoded: the last movement of a shift key decides. */

  function LastShift(flag: bool, e: Event): bool {
    if e.Pressed? && IsShift(e.key) then true else if e.Released? && IsShift(e.key) then false else flag
  }

  function FlagText(flag: bool, events: seq<Event>): seq<byte>
    decreases |events|
  {
    if events == [] then [] else events[0].Typed(flag) + FlagText(LastShift(flag, events[0]), events[1..])
  }

  function FlagAfter(flag: bool, events: seq<Event>): bool
    decreases |events|
  {
    if events == [] then flag else FlagAfter(LastShift(flag, events[0]), events[1..])
  }

  lemma {:induction false} DecodeAppend(s: State, a: seq<byte>, b: seq<byte>)
    ensures After(s, a + b) == After(After(s, a), b)
    ensures Chars(s, a + b) == Chars(s, a) + Chars(After(s, a), b)
    decreases |a|
  {
    hide Next, CharOf;
    var all := a + b;
    if a == [] {
      assert all == b;
    } else {
      assert all[0] == a[0] && all[1..] == a[1..] + b;
      DecodeAppend(Next(s, a[0]), a[1..], b);
    }
  }

  lemma DecodeOne(s: State, a: byte)
    ensures After(s, [a]) == Next(s, a)
    ensures Chars(s, [a]) == if CharOf(s, a) == 0 then [] else [CharOf(s, a)]
  {
  }

  lemma EventDecodes(flag: bool, e: Event)
    requires e.Valid()
    ensures After(State(flag, false), e.Codes()) == State(LastShift(flag, e), false)
    ensures Chars(State(flag, false), e.Codes()) == e.Typed(flag)
  {
    hide After, Chars, Table;
    var s := State(flag, false);
    match e
    case Pressed(key) =>
      assert key % RELEASE == key;
      NoCharacterPast(flag, key);
      DecodeOne(s, key);
    case Released(key) =>
      assert (key + RELEASE) % RELEASE == key;
      DecodeOne(s, key + RELEASE);
    case Prefixed(more, code) =>
      DecodeOne(s, 0xE0);
      PrefixesDecode(flag, more);
      DecodeOne(State(flag, true), code);
      DecodeAppend(s, [0xE0], Prefixes(more));
      DecodeAppend(s, [0xE0] + Prefixes(more), [code]);
  }

  /** A prefix after a prefix stays one. */
  lemma {:induction false} PrefixesDecode(flag: bool, n: nat)
    ensures After(State(flag, true), Prefixes(n)) == State(flag, true) && Chars(State(flag, true), Prefixes(n)) == []
  {
    if n == 0 {
    } else {
      PrefixesDecode(flag, n - 1);
      assert Prefixes(n)[1..] == Prefixes(n - 1);
    }
  }

  lemma NoCharacterPast(shift: bool, key: nat)
    ensures key >= KEYS ==> Table(shift, key) == 0
  {
  }

  /** Any movements of any keys decode to what the key tops say, going by the last movement of a shift key. */
  lemma {:induction false} DecodeEvents(flag: bool, events: seq<Event>)
    requires AllValid(events)
    ensures Chars(State(flag, false), Encode(events)) == FlagText(flag, events)
    ensures After(State(flag, false), Encode(events)) == State(FlagAfter(flag, events), false)
    decreases |events|
  {
    hide Chars, After, LastShift, Event.Typed, Event.Codes, Event.Valid;
    if events == [] {
      NothingMoves(State(flag, false));
    } else {
      var e, rest := events[0], events[1..];
      assert e in events && forall f :: f in rest ==> f in events;
      EventDecodes(flag, e);
      DecodeEvents(LastShift(flag, e), rest);
      DecodeAppend(State(flag, false), e.Codes(), Encode(rest));
    }
  }

  lemma NothingMoves(s: State)
    ensures Chars(s, []) == [] && After(s, []) == s
  {
  }

  /**
   At no moment is a key struck on which the tables differ while one shift key is held and the
   last movement of a shift key was the other's release.
   */
  predicate NeverConfused(s: Shifts, flag: bool, events: seq<Event>)
    decreases |events|
  {
    events == [] ||
    (var e := events[0];
     && !(e.Pressed? && !IsShift(e.key) && s.Held() != flag && Table(true, e.key) != Table(false, e.key))
     && NeverConfused(s.After(e), LastShift(flag, e), events[1..]))
  }

  /** A key with a shifted character has an unshifted one. */
  lemma ShiftedHasNormal(key: nat)
    ensures Table(true, key) != 0 ==> Table(false, key) != 0
  {
  }

  /** One event, read with shift held or by a flag that is never set when it is not. */
  lemma EventReadings(held: bool, flag: bool, e: Event)
    requires flag ==> held
    ensures |e.Typed(held)| <= |e.Typed(flag)| <= 1
    ensures e.Typed(held) == e.Typed(flag) <==>
              !(e.Pressed? && !IsShift(e.key) && held != flag && Table(true, e.key) != Table(false, e.key))
  {
    hide Table;
    if e.Pressed? {
      ShiftedHasNormal(e.key);
    }
  }

  lemma FlagFollows(s: Shifts, flag: bool, e: Event)
    requires flag ==> s.Held()
    ensures LastShift(flag, e) ==> s.After(e).Held()
  {
  }

  /** The two readings of a sequence differ exactly if they do at some key. */
  lemma {:induction false} Readings(s: Shifts, flag: bool, events: seq<Event>)
    requires flag ==> s.Held()
    ensures |Text(s, events)| <= |FlagText(flag, events)|
    ensures Text(s, events) == FlagText(flag, events) <==> NeverConfused(s, flag, events)
    ensures FlagAfter(flag, events) ==> ShiftsAfter(s, events).Held()
    decreases |events|
  {
    if events == [] {
    } else {
      hide Table, Event.Typed, LastShift, Shifts.Held, Shifts.After;
      var e, rest := events[0], events[1..];
      var p, d := e.Typed(s.Held()), e.Typed(flag);
      FlagFollows(s, flag, e);
      EventReadings(s.Held(), flag, e);
      Readings(s.After(e), LastShift(flag, e), rest);
      SameStart(p, Text(s.After(e), rest), d, FlagText(LastShift(flag, e), rest));
    }
  }

  lemma SameStart(p: seq<byte>, ps: seq<byte>, d: seq<byte>, ds: seq<byte>)
    requires |p| <= |d| && |ps| <= |ds|
    ensures p + ps == d + ds <==> p == d && ps == ds
  {
    if p + ps == d + ds {
      assert |p| == |d|;
      assert p == (p + ps)[..|p|] && d == (d + ds)[..|d|];
      assert ps == (p + ps)[|p|..] && ds == (d + ds)[|d|..];
    }
  }

  /** No shift key comes up while the other is down. */
  predicate OneShiftAtATime(s: Shifts, events: seq<Event>)
    decreases |events|
  {
    events == [] ||
    (var e := events[0];
     && !(e.Released? && ((e.key == 0x2A && s.right) || (e.key == 0x36 && s.left)))
     && OneShiftAtATime(s.After(e), events[1..]))
  }

  /** Then every text is decoded as it was typed. */
  lemma {:induction false} OneShiftIsClear(s: Shifts, events: seq<Event>)
    requires OneShiftAtATime(s, events)
    ensures NeverConfused(s, s.Held(), events)
    decreases |events|
  {
    if events == [] {
    } else {
      hide Table;
      assert LastShift(s.Held(), events[0]) == s.After(events[0]).Held();
      OneShiftIsClear(s.After(events[0]), events[1..]);
    }
  }

  /**
   Round trip: whatever keys move, in whatever order and overlap, with repeats, strays and 0xE0
   pairs anywhere between, the text typed is the text decoded if and only if no key is struck
   while one shift key is still held after the other was released -- unless it has the same
   character either way. With both shift keys up at the end, the flags end clear.
   */
  lemma DecodeEncodeIff(events: seq<Event>)
    requires AllValid(events)
    ensures Chars(IDLE, Encode(events)) == Text(NO_SHIFT, events) <==> NeverConfused(NO_SHIFT, false, events)
    ensures OneShiftAtATime(NO_SHIFT, events) ==> Chars(IDLE, Encode(events)) == Text(NO_SHIFT, events)
    ensures !ShiftsAfter(NO_SHIFT, events).Held() ==> After(IDLE, Encode(events)) == IDLE
  {
    hide Chars, After, Text, FlagText, NeverConfused, FlagAfter, ShiftsAfter, OneShiftAtATime;
    if OneShiftAtATime(NO_SHIFT, events) {
      OneShiftIsClear(NO_SHIFT, events);
    }
    DecodeEvents(false, events);
    Readings(NO_SHIFT, false, events);
  }

  /** One movement, then the others. */
  lemma OneMovement(s: Shifts, flag: bool, e: Event, rest: seq<Event>)
    ensures FlagText(flag, [e] + rest) == e.Typed(flag) + FlagText(LastShift(flag, e), rest)
    ensures FlagAfter(flag, [e] + rest) == FlagAfter(LastShift(flag, e), rest)
    ensures Text(s, [e] + rest) == e.Typed(s.Held()) + Text(s.After(e), rest)
    ensures FlagText(flag, []) == [] && FlagAfter(flag, []) == flag && Text(s, []) == []
  {
    hide LastShift, Event.Typed, Shifts.After, Shifts.Held;
    var all := [e] + rest;
    assert all[0] == e && all[1..] == rest;
  }

  /** With both shift keys down and one of them released, the A key gives an unshifted letter. */
  lemma BothShiftsConfuse()
    ensures var events := [Pressed(0x2A), Pressed(0x36), Released(0x2A), Pressed(0x1E)];
            && AllValid(events)
            && Text(NO_SHIFT, events) == [0x41] && Chars(IDLE, Encode(events)) == [0x61]
  {
    hide FlagText, Text, FlagAfter, Chars, Encode, Table;
    var a, b, c, d := Pressed(0x2A), Pressed(0x36), Released(0x2A), Pressed(0x1E);
    LetterA();
    OneMovement(Shifts(false, true), false, d, []);
    OneMovement(Shifts(true, true), true, c, [d]);
    OneMovement(Shifts(true, false), true, b, [c, d]);
    OneMovement(NO_SHIFT, false, a, [b, c, d]);
    assert [d] + [] == [d] && [c] + [d] == [c, d] && [b] + [c, d] == [b, c, d] && [a] + [b, c, d] == [a, b, c, d];
    DecodeEvents(false, [a, b, c, d]);
  }

  lemma LetterA()
    ensures Table(false, 0x1E) == 0x61 && Table(true, 0x1E) == 0x41
  {
  }

  /* Every text can be typed. */

  /** The movements that type a character: its key, inside the left shift's if it needs it. */
  function Strokes(c: byte): seq<Event>
    requires Typeable(c)
  {
    var k := KeyFor(c);
    KeyForIsRight(c);
    if k.shift then [Pressed(0x2A), Pressed(k.key), Released(k.key), Released(0x2A)]
    else [Pressed(k.key), Released(k.key)]
  }

  function Type(text: seq<byte>): seq<Event>
    requires forall i :: 0 <= i < |text| ==> Typeable(text[i])
    decreases |text|
  {
    if text == [] then [] else Strokes(text[0]) + Type(text[1..])
  }

  lemma {:induction false} FlagTextAppend(flag: bool, a: seq<Event>, b: seq<Event>)
    ensures FlagText(flag, a + b) == FlagText(flag, a) + FlagText(FlagAfter(flag, a), b)
    decreases |a|
  {
    if a == [] {
      assert a + b == b;
    } else {
      hide LastShift, Event.Typed;
      var next := LastShift(flag, a[0]);
      FlagTextAppend(next, a[1..], b);
      assert (a + b)[0] == a[0] && (a + b)[1..] == a[1..] + b;
      Reassociate(a[0].Typed(flag), FlagText(next, a[1..]), FlagText(FlagAfter(next, a[1..]), b));
    }
  }

  lemma Reassociate(a: seq<byte>, b: seq<byte>, c: seq<byte>)
    ensures a + (b + c) == a + b + c
  {
  }

  lemma StrokesType(c: byte)
    requires Typeable(c)
    ensures AllValid(Strokes(c)) && FlagText(false, Strokes(c)) == [c] && !FlagAfter(false, Strokes(c))
  {
    hide KeyFor, Table, Typeable, FlagText, FlagAfter, Text;
    var k := KeyFor(c);
    KeyForIsRight(c);
    assert k.key < KEYS && Table(k.shift, k.key) == c;
    NoShiftCharacter(k.shift);
    TypeableNonzero(c);
    var down, up := Pressed(k.key), Released(k.key);
    if k.shift {
      var press, release := Pressed(0x2A), Released(0x2A);
      OneMovement(NO_SHIFT, true, release, []);
      OneMovement(NO_SHIFT, true, up, [release]);
      OneMovement(NO_SHIFT, true, down, [up, release]);
      OneMovement(NO_SHIFT, false, press, [down, up, release]);
      assert [release] + [] == [release] && [up] + [release] == [up, release];
      assert [down] + [up, release] == [down, up, release];
      assert [press] + [down, up, release] == [press, down, up, release];
    } else {
      OneMovement(NO_SHIFT, false, up, []);
      OneMovement(NO_SHIFT, false, down, [up]);
      assert [up] + [] == [up] && [down] + [up] == [down, up];
    }
  }

  lemma NoShiftCharacter(shift: bool)
    ensures Table(shift, LEFT_SHIFT) == 0 && Table(shift, RIGHT_SHIFT) == 0
  {
  }

  lemma TypeableNonzero(c: byte)
    requires Typeable(c)
    ensures c != 0
  {
  }

  /** Every text over printable ASCII, newline, tab and backspace can be typed, and then is what is decoded. */
  lemma {:induction false} EveryTextDecodes(text: seq<byte>)
    requires forall i :: 0 <= i < |text| ==> Typeable(text[i])
    ensures AllValid(Type(text))
    ensures FlagText(false, Type(text)) == text && !FlagAfter(false, Type(text))
    ensures Chars(IDLE, Encode(Type(text))) == text && After(IDLE, Encode(Type(text))) == IDLE
    decreases |text|
  {
    hide Chars, After, Encode, Typeable, Strokes, Event.Valid, Event.Typed, LastShift;
    if text == [] {
      assert FlagText(false, []) == [] && !FlagAfter(false, []);
    } else {
      var rest := Type(text[1..]);
      EveryTextDecodes(text[1..]);
      StrokesType(text[0]);
      FlagTextAppend(false, Strokes(text[0]), rest);
      FlagAfterAppend(false, Strokes(text[0]), rest);
      assert text == [text[0]] + text[1..];
    }
    DecodeEvents(false, Type(text));
  }

  lemma {:induction false} FlagAfterAppend(flag: bool, a: seq<Event>, b: seq<Event>)
    ensures FlagAfter(flag, a + b) == FlagAfter(FlagAfter(flag, a), b)
    decreases |a|
  {
    if a == [] {
      assert a + b == b;
    } else {
      hide LastShift;
      FlagAfterAppend(LastShift(flag, a[0]), a[1..], b);
      assert (a + b)[0] == a[0] && (a + b)[1..] == a[1..] + b;
    }
  }
}
