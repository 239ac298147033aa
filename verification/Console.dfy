/**
 Keyboard, line editor and screen together: what is typed at the keys is what the shell gets
 and what the screen shows.
 */
module Console {
  import opened Machine
  import opened Vga
  import opened LineEdit
  import opened LineEditProps
  import K = Keyboard

  /** Every character a key gives is typeable or escape. */
  lemma {:induction false} TextIsTypeable(s: K.Shifts, events: seq<K.Event>)
    ensures forall c :: c in K.Text(s, events) ==> K.Typeable(c) || c == K.ESCAPE
    decreases |events|
  {
    if events == [] {
    } else {
      hide K.Typeable, K.Table, K.Shifts.After, K.Shifts.Held, K.IsShift;
      var e := events[0];
      TextIsTypeable(s.After(e), events[1..]);
      if e.Pressed? {
        K.TableGives(s.Held(), e.key);
      }
    }
  }

  /**
   Whatever keys move without confusing the keyboard about shift: the characters typed before a
   newline reduce to the line the shell gets, and the screen shows that line at every moment.
   */
  lemma TypedLineIsReadAndShown(events: seq<K.Event>, typed: seq<byte>, rest: seq<byte>, start: Tape, color: byte)
    requires K.AllValid(events) && K.NeverConfused(K.NO_SHIFT, false, events)
    requires K.Text(K.NO_SHIFT, events) == typed + ([NEWLINE] + rest) && NEWLINE !in typed
    requires Ready(start, color)
    ensures K.Chars(K.IDLE, K.Encode(events)) == typed + ([NEWLINE] + rest)
    ensures var line, echo := EditAll([], typed, LINE_CAP), EchoAll([], typed, LINE_CAP);
            && ReadLineFrom([], K.Chars(K.IDLE, K.Encode(events))) == Session(Done, line, rest, echo + [NEWLINE])
            && Shows(start.PutAll(echo, color), start, line, color)
  {
    hide EditAll, EchoAll, K.Encode, K.Chars, K.Text, Tape.PutAll, Shows, Ready, ReadLineFrom, K.AllValid, K.NeverConfused,
         NoNewline;
    K.DecodeEncodeIff(events);
    TextIsTypeable(K.NO_SHIFT, events);
    NoNewlineIn(typed, K.Text(K.NO_SHIFT, events));
    KeysReadLine(typed, rest);
    EchoShowsLine(start, typed, LINE_CAP, color);
  }

  lemma NoNewlineIn(typed: seq<byte>, text: seq<byte>)
    requires typed <= text && NEWLINE !in typed && forall c :: c in text ==> K.Typeable(c) || c == K.ESCAPE
    ensures NoNewline(typed)
  {
    assert forall c :: c in typed ==> c in text;
  }

  lemma KeysReadLine(keys: seq<Key>, rest: seq<Key>)
    requires NoNewline(keys)
    ensures ReadLineFrom([], keys + ([NEWLINE] + rest)) ==
            Session(Done, EditAll([], keys, LINE_CAP), rest, EchoAll([], keys, LINE_CAP) + [NEWLINE])
  {
    hide EditAll, EchoAll;
    var tail := [NEWLINE] + rest;
    assert tail[0] == NEWLINE && tail[1..] == rest;
    ReadLineSteps([], keys, tail);
  }
}
