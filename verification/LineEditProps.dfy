/**
 What the line editors promise: both compute the same reduction of the keys, and the screen
 shows exactly the line being edited -- for which lines, exactly.
 */
module LineEditProps {
  import opened Machine
  import opened Vga
  import opened LineEdit

  /* Both editors reduce the keys. */

  lemma {:induction false} EditAppend(line: seq<byte>, a: seq<Key>, b: seq<Key>, cap: nat)
    ensures EditAll(line, a + b, cap) == EditAll(EditAll(line, a, cap), b, cap)
    ensures EchoAll(line, a + b, cap) == EchoAll(line, a, cap) + EchoAll(EditAll(line, a, cap), b, cap)
    decreases |b|
  {
    hide Edit, Echo;
    var all := a + b;
    if b == [] {
      assert all == a;
    } else {
      var k := |b| - 1;
      EditAppend(line, a, b[..k], cap);
      assert all[..|all| - 1] == a + b[..k] && all[|all| - 1] == b[k];
    }
  }

  lemma EditOne(line: seq<byte>, k: Key, cap: nat)
    ensures EditAll(line, [k], cap) == Edit(line, k, cap) && EchoAll(line, [k], cap) == Echo(line, k, cap)
    ensures EditAll(line, [], cap) == line && EchoAll(line, [], cap) == []
  {
  }

  /** The first key, then the rest. */
  lemma EditFirst(line: seq<byte>, keys: seq<Key>, cap: nat)
    requires keys != []
    ensures EditAll(line, keys, cap) == EditAll(Edit(line, keys[0], cap), keys[1..], cap)
    ensures EchoAll(line, keys, cap) == Echo(line, keys[0], cap) + EchoAll(Edit(line, keys[0], cap), keys[1..], cap)
  {
    hide Edit, Echo, EditAll, EchoAll;
    assert keys == [keys[0]] + keys[1..];
    EditAppend(line, [keys[0]], keys[1..], cap);
    EditOne(line, keys[0], cap);
  }

  predicate NoNewline(keys: seq<Key>) {
    forall k :: k in keys ==> !IsNewline(k)
  }

  predicate NoError(keys: seq<Key>) {
    forall k :: k in keys ==> k >= 0
  }

  lemma SomeKeys(keys: seq<Key>, i: nat, j: nat)
    requires i <= j <= |keys|
    ensures NoNewline(keys) ==> NoNewline(keys[i..j])
    ensures NoError(keys) ==> NoError(keys[i..j])
  {
    assert forall k :: k in keys[i..j] ==> k in keys;
  }

  /** The reduction of every prefix has at most `cap` characters. */
  predicate StaysWithin(keys: seq<Key>, cap: int) {
    forall i :: 0 <= i <= |keys| ==> |Reduce(keys[..i])| <= cap
  }

  lemma StaysWithinPrefix(keys: seq<Key>, cap: int, n: nat)
    requires n <= |keys| && StaysWithin(keys, cap)
    ensures StaysWithin(keys[..n], cap)
  {
    assert forall i :: 0 <= i <= n ==> keys[..n][..i] == keys[..i];
  }

  /** As long as the cap is not passed it makes no difference. */
  lemma {:induction false} CapUnreached(keys: seq<Key>, cap: nat)
    requires StaysWithin(keys, cap)
    ensures EditAll([], keys, cap) == Reduce(keys)
    decreases |keys|
  {
    if keys == [] {
    } else {
      StaysWithinPrefix(keys, cap, |keys| - 1);
      CapUnreached(keys[..|keys| - 1], cap);
      assert keys[..|keys|] == keys;
    }
  }

  lemma {:induction false} SameEcho(keys: seq<Key>, cap: nat, cap': nat)
    requires StaysWithin(keys, cap) && StaysWithin(keys, cap')
    ensures EchoAll([], keys, cap) == EchoAll([], keys, cap')
    decreases |keys|
  {
    if keys == [] {
    } else {
      var k := |keys| - 1;
      StaysWithinPrefix(keys, cap, k);
      StaysWithinPrefix(keys, cap', k);
      SameEcho(keys[..k], cap, cap');
      CapUnreached(keys[..k], cap);
      CapUnreached(keys[..k], cap');
      assert keys[..|keys|] == keys;
    }
  }

  /** `readline` over keys without a newline, and then whatever follows. */
  lemma {:induction false} ReadLineSteps(line: seq<byte>, keys: seq<Key>, rest: seq<Key>)
    requires NoNewline(keys)
    ensures var s := ReadLineFrom(EditAll(line, keys, LINE_CAP), rest);
            ReadLineFrom(line, keys + rest) == s.(echo := EchoAll(line, keys, LINE_CAP) + s.echo)
    decreases |keys|
  {
    hide Edit, Echo, EditAll, EchoAll;
    if keys == [] {
      assert keys + rest == rest;
      EditOne(line, NEWLINE, LINE_CAP);
    } else {
      var all := keys + rest;
      assert all[0] == keys[0] && all[1..] == keys[1..] + rest;
      assert keys[0] in keys;
      SomeKeys(keys, 1, |keys|);
      assert keys[1..|keys|] == keys[1..];
      EditFirst(line, keys, LINE_CAP);
      ReadLineSteps(Edit(line, keys[0], LINE_CAP), keys[1..], rest);
    }
  }

  /** `read` over keys during which the line stays shorter than `len`, and then whatever follows. */
  lemma {:induction false} ReadSteps(line: seq<byte>, keys: seq<Key>, rest: seq<Key>, len: nat)
    requires NoNewline(keys) && NoError(keys)
    requires forall i :: 0 <= i < |keys| ==> |EditAll(line, keys[..i], len)| < len
    ensures var s := ReadFrom(EditAll(line, keys, len), rest, len);
            ReadFrom(line, keys + rest, len) == s.(echo := EchoAll(line, keys, len) + s.echo)
    decreases |keys|
  {
    hide Edit, Echo, EditAll, EchoAll;
    EditOne(line, NEWLINE, len);
    if keys == [] {
      assert keys + rest == rest;
    } else {
      var all := keys + rest;
      assert all[0] == keys[0] && all[1..] == keys[1..] + rest;
      assert keys[..0] == [] && keys[0] in keys;
      SomeKeys(keys, 1, |keys|);
      assert keys[1..|keys|] == keys[1..];
      EditFirst(line, keys, len);
      forall i | 0 <= i < |keys| - 1
        ensures |EditAll(Edit(line, keys[0], len), keys[1..][..i], len)| < len
      {
        assert keys[..i + 1][1..] == keys[1..][..i];
        EditFirst(line, keys[..i + 1], len);
      }
      ReadSteps(Edit(line, keys[0], len), keys[1..], rest, len);
    }
  }

  /**
   On a newline-terminated stream whose edited length stays at most 127 and below `len`, both
   editors deliver the reduction of the keys with the same echo; `read` keeps the newline.
   */
  lemma EditorsAgree(keys: seq<Key>, newline: Key, rest: seq<Key>, len: nat)
    requires NoNewline(keys) && NoError(keys) && IsNewline(newline)
    requires StaysWithin(keys, LINE_CAP) && StaysWithin(keys, len - 1)
    ensures var all := keys + ([newline] + rest);
            var echo := EchoAll([], keys, LINE_CAP) + [NEWLINE];
            && ReadLineFrom([], all) == Session(Done, Reduce(keys), rest, echo)
            && ReadFrom([], all, len) == Session(Done, Reduce(keys) + [NEWLINE], rest, echo)
  {
    assert keys[..0] == [] && |Reduce(keys[..0])| <= len - 1;
    var tail := [newline] + rest;
    assert tail[0] == newline && tail[1..] == rest;
    CapUnreached(keys, LINE_CAP);
    ReadLineSteps([], keys, tail);
    WithinIsBelow(keys, len);
    CapUnreached(keys, len);
    ReadSteps([], keys, tail, len);
    SameEcho(keys, LINE_CAP, len);
    assert keys[..|keys|] == keys;
  }

  lemma WithinIsBelow(keys: seq<Key>, len: nat)
    requires StaysWithin(keys, len - 1)
    ensures StaysWithin(keys, len)
    ensures forall i :: 0 <= i < |keys| ==> |EditAll([], keys[..i], len)| < len
  {
    forall i | 0 <= i < |keys|
      ensures |EditAll([], keys[..i], len)| < len
    {
      StaysWithinPrefix(keys, len - 1, i);
      assert StaysWithin(keys[..i], len);
      CapUnreached(keys[..i], len);
    }
  }

  lemma {:induction false} ReducedHasNoNewline(keys: seq<Key>)
    ensures NEWLINE !in Reduce(keys)
    decreases |keys|
  {
    if keys == [] {
    } else {
      ReducedHasNoNewline(keys[..|keys| - 1]);
    }
  }

  lemma ReducedLength(keys: seq<Key>, i: nat)
    requires i < |keys|
    ensures |Reduce(keys[..i + 1])| <= |Reduce(keys[..i])| + 1
  {
    assert keys[..i + 1][..i] == keys[..i];
  }

  /** The first prefix whose reduction fills a buffer of `len`. */
  lemma {:induction false} FirstFull(keys: seq<Key>, len: nat, n: nat) returns (i: nat)
    requires n <= |keys| && |Reduce(keys[..n])| >= len
    ensures i <= n && |Reduce(keys[..i])| == len && StaysWithin(keys[..i], len)
    ensures forall j :: 0 <= j < i ==> |Reduce(keys[..j])| < len
    decreases n
  {
    if j :| 0 <= j < n && |Reduce(keys[..j])| >= len {
      i := FirstFull(keys, len, j);
    } else {
      i := n;
      if n > 0 {
        ReducedLength(keys, n - 1);
      }
      assert forall j :: 0 <= j <= n ==> keys[..n][..j] == keys[..j];
    }
  }

  lemma ReadEnds(line: seq<byte>, newline: Key, rest: seq<Key>, len: nat)
    requires IsNewline(newline) && |line| < len
    ensures ReadFrom(line, [newline] + rest, len) == Session(Done, line + [NEWLINE], rest, [NEWLINE])
  {
  }

  lemma ReadFills(line: seq<byte>, keys: seq<Key>, len: nat)
    requires |line| >= len
    ensures ReadFrom(line, keys, len) == Session(Done, line, keys, [])
  {
  }

  /** `read` delivers the reduction and its newline exactly when the edited line always stays shorter than `len`. */
  lemma ReadDeliversLineIff(keys: seq<Key>, newline: Key, rest: seq<Key>, len: nat)
    requires NoNewline(keys) && NoError(keys) && IsNewline(newline)
    ensures ReadFrom([], keys + ([newline] + rest), len).line == Reduce(keys) + [NEWLINE] <==> StaysWithin(keys, len - 1)
  {
    hide ReadFrom, EditAll, EchoAll, Reduce;
    var tail := [newline] + rest;
    if StaysWithin(keys, len - 1) {
      assert keys[..|keys|] == keys;
      ReadEnds(Reduce(keys), newline, rest, len);
      assert keys[..0] == [] && |Reduce(keys[..0])| <= len - 1;
      WithinIsBelow(keys, len);
      CapUnreached(keys, len);
      ReadSteps([], keys, tail, len);
    } else {
      var n :| 0 <= n <= |keys| && |Reduce(keys[..n])| >= len;
      var i := FirstFull(keys, len, n);
      var typed := keys[..i];
      CapUnreached(typed, len);
      forall j | 0 <= j < i
        ensures |EditAll([], typed[..j], len)| < len
      {
        StaysWithinPrefix(typed, len, j);
        assert typed[..j] == keys[..j];
        CapUnreached(typed[..j], len);
      }
      SomeKeys(keys, 0, i);
      assert keys[0..i] == typed;
      ReadSteps([], typed, keys[i..] + tail, len);
      ReadFills(Reduce(typed), keys[i..] + tail, len);
      assert typed + (keys[i..] + tail) == keys + tail;
      ReducedHasNoNewline(typed);
      var line := Reduce(keys) + [NEWLINE];
      assert line[|line| - 1] == NEWLINE;
    }
  }

  /* Which keys are what, by their codes. */

  /** A printable character: from space on, all but delete. */
  predicate Printing(k: byte) {
    0x20 <= k < 0x7F || 0x80 <= k
  }

  /** The first `n` keys, if there are more. */
  function FirstKeys(keys: seq<byte>, n: nat): seq<byte> {
    if |keys| <= n then keys else keys[..n]
  }

  lemma FirstKeysStep(keys: seq<byte>, n: nat)
    requires keys != []
    ensures FirstKeys(keys, 0) == []
    ensures n > 0 ==> FirstKeys(keys, n) == [keys[0]] + FirstKeys(keys[1..], n - 1)
  {
  }

  /** One key of `readline`, by its code. */
  lemma ReadLineKey(line: seq<byte>, k: Key, tail: seq<Key>)
    ensures var s := ReadLineFrom(line, [k] + tail);
            && (k == 0x0A || k == 0x0D ==> s == Session(Done, line, tail, [0x0A]))
            && (k >= 0 && Printing(k) && |line| < 127 ==>
                  var next := ReadLineFrom(line + [k], tail);
                  s == next.(echo := [k] + next.echo))
            && (k >= 0 && Printing(k) && |line| >= 127 ==> s == ReadLineFrom(line, tail))
            && ((k == 0x08 || k == 0x7F) && line != [] ==>
                  var next := ReadLineFrom(line[..|line| - 1], tail);
                  s == next.(echo := [0x08, 0x20, 0x08] + next.echo))
            && ((k == 0x08 || k == 0x7F) && line == [] ==> s == ReadLineFrom(line, tail))
            && (k < 0x20 && k != 0x08 && k != 0x0A && k != 0x0D ==> s == ReadLineFrom(line, tail))
  {
    assert ([k] + tail)[0] == k && ([k] + tail)[1..] == tail;
    assert forall e: seq<byte> :: [] + e == e;
  }

  /** One key of `read` while its buffer has room, by its code. */
  lemma ReadKey(line: seq<byte>, k: Key, tail: seq<Key>, len: nat)
    requires |line| < len
    ensures var s := ReadFrom(line, [k] + tail, len);
            && (k == 0x0A || k == 0x0D ==> s == Session(Done, line + [0x0A], tail, [0x0A]))
            && (k >= 0 && Printing(k) ==>
                  var next := ReadFrom(line + [k], tail, len);
                  s == next.(echo := [k] + next.echo))
            && ((k == 0x08 || k == 0x7F) && line != [] ==>
                  var next := ReadFrom(line[..|line| - 1], tail, len);
                  s == next.(echo := [0x08, 0x20, 0x08] + next.echo))
            && ((k == 0x08 || k == 0x7F) && line == [] ==> s == ReadFrom(line, tail, len))
            && (0 <= k < 0x20 && k != 0x08 && k != 0x0A && k != 0x0D ==> s == ReadFrom(line, tail, len))
            && (k < 0 ==> s == Session(Failed, line, tail, []))
  {
    assert ([k] + tail)[0] == k && ([k] + tail)[1..] == tail;
    assert forall e: seq<byte> :: [] + e == e;
  }

  lemma {:induction false} TextStays(line: seq<byte>, keys: seq<byte>, tail: seq<Key>, room: nat)
    requires (forall k :: k in keys ==> Printing(k)) && |line| + room == 127
    ensures var kept := FirstKeys(keys, room);
            var s := ReadLineFrom(line + kept, tail);
            ReadLineFrom(line, keys + tail) == s.(echo := kept + s.echo)
    decreases |keys|
  {
    hide ReadLineFrom, Printing, FirstKeys;
    if keys == [] {
      assert FirstKeys(keys, room) == [] by {
        NoKeys(room);
      }
      assert keys + tail == tail && line + [] == line;
      assert forall e: seq<byte> :: [] + e == e;
    } else {
      var k, rest := keys[0], keys[1..];
      assert k in keys && keys + tail == [k] + (rest + tail);
      ReadLineKey(line, k, rest + tail);
      FirstKeysStep(keys, room);
      if room > 0 {
        var kept := FirstKeys(rest, room - 1);
        TextStays(line + [k], rest, tail, room - 1);
        assert line + [k] + kept == line + ([k] + kept);
        assert forall e: seq<byte> :: [k] + (kept + e) == [k] + kept + e;
      } else {
        TextStays(line, rest, tail, 0);
        NothingKept(rest);
      }
    }
  }

  lemma NoKeys(n: nat)
    ensures FirstKeys([], n) == []
  {
  }

  lemma NothingKept(keys: seq<byte>)
    ensures FirstKeys(keys, 0) == []
  {
  }

  lemma {:induction false} TextFills(line: seq<byte>, keys: seq<byte>, tail: seq<Key>, len: nat)
    requires (forall k :: k in keys ==> Printing(k)) && |line| + |keys| <= len
    ensures var s := ReadFrom(line + keys, tail, len);
            ReadFrom(line, keys + tail, len) == s.(echo := keys + s.echo)
    decreases |keys|
  {
    hide ReadFrom, Printing;
    if keys == [] {
      assert keys + tail == tail && line + keys == line;
      assert forall e: seq<byte> :: [] + e == e;
    } else {
      var k, rest := keys[0], keys[1..];
      assert k in keys && keys + tail == [k] + (rest + tail);
      ReadKey(line, k, rest + tail, len);
      TextFills(line + [k], rest, tail, len);
      assert line + [k] + rest == line + keys;
      assert forall e: seq<byte> :: [k] + (rest + e) == keys + e;
    }
  }

  /**
   Printable characters and then return or newline: `readline` delivers exactly the first 127 of
   them, and `read` all of them and a newline if its buffer has room, or as many as it holds, the
   rest left for the next call.
   */
  lemma TextIsDelivered(keys: seq<byte>, end: Key, rest: seq<Key>, len: nat)
    requires (forall k :: k in keys ==> Printing(k)) && (end == 0x0A || end == 0x0D)
    ensures ReadLineFrom([], keys + ([end] + rest)) ==
            Session(Done, FirstKeys(keys, 127), rest, FirstKeys(keys, 127) + [0x0A])
    ensures |keys| < len ==>
              ReadFrom([], keys + ([end] + rest), len) == Session(Done, keys + [0x0A], rest, keys + [0x0A])
    ensures |keys| >= len ==>
              ReadFrom([], keys + ([end] + rest), len) ==
              Session(Done, keys[..len], keys[len..] + ([end] + rest), keys[..len])
  {
    hide *;
    LineIsDelivered(keys, end, rest);
    if |keys| < len {
      TextFitsRead(keys, end, rest, len);
    } else {
      TextFillsRead(keys, [end] + rest, len);
    }
  }

  lemma LineIsDelivered(keys: seq<byte>, end: Key, rest: seq<Key>)
    requires (forall k :: k in keys ==> Printing(k)) && (end == 0x0A || end == 0x0D)
    ensures ReadLineFrom([], keys + ([end] + rest)) ==
            Session(Done, FirstKeys(keys, 127), rest, FirstKeys(keys, 127) + [0x0A])
  {
    hide ReadLineFrom, Printing, FirstKeys;
    TextStays([], keys, [end] + rest, 127);
    assert [] + FirstKeys(keys, 127) == FirstKeys(keys, 127);
    ReadLineKey(FirstKeys(keys, 127), end, rest);
  }

  lemma TextFitsRead(keys: seq<byte>, end: Key, rest: seq<Key>, len: nat)
    requires (forall k :: k in keys ==> Printing(k)) && (end == 0x0A || end == 0x0D) && |keys| < len
    ensures ReadFrom([], keys + ([end] + rest), len) == Session(Done, keys + [0x0A], rest, keys + [0x0A])
  {
    hide ReadFrom, Printing;
    TextFills([], keys, [end] + rest, len);
    assert [] + keys == keys;
    ReadKey(keys, end, rest, len);
  }

  lemma TextFillsRead(keys: seq<byte>, tail: seq<Key>, len: nat)
    requires (forall k :: k in keys ==> Printing(k)) && |keys| >= len
    ensures ReadFrom([], keys + tail, len) == Session(Done, keys[..len], keys[len..] + tail, keys[..len])
  {
    hide *;
    Cut(keys, tail, len);
    KeptFillsRead(keys[..len], keys[len..] + tail, len);
  }

  lemma Cut(keys: seq<byte>, tail: seq<Key>, n: nat)
    requires n <= |keys|
    ensures keys[..n] + (keys[n..] + tail) == keys + tail
    ensures (forall k :: k in keys ==> Printing(k)) ==> forall k :: k in keys[..n] ==> Printing(k)
  {
    hide Printing;
    assert keys == keys[..n] + keys[n..];
  }

  lemma KeptFillsRead(kept: seq<byte>, tail: seq<Key>, len: nat)
    requires (forall k :: k in kept ==> Printing(k)) && |kept| == len
    ensures ReadFrom([], kept + tail, len) == Session(Done, kept, tail, kept)
  {
    hide ReadFrom, Printing;
    TextFills([], kept, tail, len);
    assert [] + kept == kept && kept + [] == kept;
    FullBuffer(kept, tail, len);
  }

  lemma FullBuffer(line: seq<byte>, tail: seq<Key>, len: nat)
    requires |line| == len
    ensures ReadFrom(line, tail, len) == Session(Done, line, tail, [])
  {
  }

  /** A character typed and taken back by backspace or delete leaves the line as it was. */
  lemma TakenBack(line: seq<byte>, c: byte, erase: Key, tail: seq<Key>, len: nat)
    requires Printing(c) && (erase == 0x08 || erase == 0x7F)
    ensures |line| < 127 ==>
              var s := ReadLineFrom(line, tail);
              ReadLineFrom(line, [c] + ([erase] + tail)) == s.(echo := [c, 0x08, 0x20, 0x08] + s.echo)
    ensures |line| + 1 < len ==>
              var s := ReadFrom(line, tail, len);
              ReadFrom(line, [c] + ([erase] + tail), len) == s.(echo := [c, 0x08, 0x20, 0x08] + s.echo)
  {
    hide ReadLineFrom, ReadFrom, Printing;
    assert (line + [c])[..|line + [c]| - 1] == line;
    assert forall e: seq<byte> :: [c] + ([0x08, 0x20, 0x08] + e) == [c, 0x08, 0x20, 0x08] + e;
    if |line| < 127 {
      ReadLineKey(line, c, [erase] + tail);
      ReadLineKey(line + [c], erase, tail);
    }
    if |line| + 1 < len {
      ReadKey(line, c, [erase] + tail, len);
      ReadKey(line + [c], erase, tail, len);
    }
  }

  /* What you see is what you typed. */

  /** The screen is ready for a line: blank from the cursor on. */
  ghost predicate Ready(t: Tape, color: byte) {
    t.Valid() && forall i :: t.pos <= i < |t.cells| ==> t.cells[i] == Entry(SPACE, color)
  }

  /**
   The tape holds `line` where `start`'s cursor was, blanks after it, the cursor at its end,
   and everything before it as it was.
   */
  ghost predicate InStep(t: Tape, start: Tape, line: seq<byte>, color: byte)
    requires start.Valid()
  {
    && t.Valid() && t.pos == start.pos + |line|
    && |start.cells| <= |t.cells|
    && (forall i :: 0 <= i < start.pos ==> t.cells[i] == start.cells[i])
    && (forall i :: start.pos <= i < t.pos ==> t.cells[i] == Entry(line[i - start.pos], color))
    && (forall i :: t.pos <= i < |t.cells| ==> t.cells[i] == Entry(SPACE, color))
  }

  /** In step, and the line's first cell is still on the screen. */
  ghost predicate Shows(t: Tape, start: Tape, line: seq<byte>, color: byte)
    requires start.Valid()
  {
    InStep(t, start, line, color) && t.top * COLS <= start.pos
  }

  predicate Printable(c: byte) {
    c != NEWLINE && c != RETURN && c != TAB && c != BACKSPACE
  }

  lemma ShowsTyped(t: Tape, start: Tape, line: seq<byte>, c: byte, color: byte)
    requires start.Valid() && Shows(t, start, line, color)
    requires Printable(c) && |line| < SCREEN_CAP
    ensures Shows(t.Put(c, color), start, line + [c], color)
  {
  }

  lemma ShowsErased(t: Tape, start: Tape, line: seq<byte>, color: byte)
    requires start.Valid() && Shows(t, start, line, color) && |line| > 0
    ensures Shows(t.PutAll(ERASE, color), start, line[..|line| - 1], color)
  {
    var back := t.Put(BACKSPACE, color);
    var blanked := back.Put(SPACE, color);
    assert ERASE[..2] == [BACKSPACE, SPACE] && ERASE[..2][..1] == [BACKSPACE] && ERASE[..2][..1][..0] == [];
    assert t.PutAll([], color) == t;
    assert t.PutAll(ERASE[..2][..1], color) == back;
    assert t.PutAll(ERASE[..2], color) == blanked;
    assert back == Tape(t.cells, t.pos - 1, t.top);
    assert blanked == Tape(t.cells[t.pos - 1 := Entry(SPACE, color)], t.pos, t.top);
  }

  /** Through wraps and scrolls, whatever is typed and erased, the screen shows the line being edited. */
  lemma {:induction false} EchoShowsLine(start: Tape, keys: seq<Key>, cap: nat, color: byte)
    requires Ready(start, color) && NoNewline(keys) && cap <= SCREEN_CAP
    ensures |EditAll([], keys, cap)| <= cap
    ensures Shows(start.PutAll(EchoAll([], keys, cap), color), start, EditAll([], keys, cap), color)
    decreases |keys|
  {
    if keys == [] {
    } else {
      var n := |keys| - 1;
      var line, k := EditAll([], keys[..n], cap), keys[n];
      var before := EchoAll([], keys[..n], cap);
      var t := start.PutAll(before, color);
      EchoShowsLine(start, keys[..n], cap, color);
      PutAllAppend(start, before, Echo(line, k, cap), color);
      assert k in keys;
      if IsErase(k) && |line| > 0 {
        ShowsErased(t, start, line, color);
      } else if IsText(k) && !IsErase(k) && |line| < cap {
        PutOne(t, k, color);
        ShowsTyped(t, start, line, k, color);
      } else {
        assert before + [] == before;
      }
    }
  }

  /* A whole session. */

  /** Output that never moves the cursor back. */
  predicate Forward(s: seq<byte>) {
    forall c :: c in s ==> c != RETURN && c != BACKSPACE
  }

  lemma PutKeepsReady(t: Tape, c: byte, color: byte)
    requires Ready(t, color) && c != RETURN && c != BACKSPACE
    ensures Ready(t.Put(c, color), color)
  {
  }

  lemma {:induction false} PrintKeepsReady(t: Tape, s: seq<byte>, color: byte)
    requires Ready(t, color) && Forward(s)
    ensures Ready(t.PutAll(s, color), color)
    decreases |s|
  {
    hide Tape.Put;
    if s == [] {
    } else {
      var n := |s| - 1;
      assert s[n] in s && forall c :: c in s[..n] ==> c in s;
      PrintKeepsReady(t, s[..n], color);
      PutKeepsReady(t.PutAll(s[..n], color), s[n], color);
    }
  }

  /**
   One line of a session: the screen may be cleared, something is printed -- a banner, a prompt,
   a command's output -- and a line is edited, which its newline ends unless it filled its buffer.
   */
  datatype Exchange = Exchange(clear: bool, output: seq<byte>, keys: seq<Key>, cap: nat, newline: bool) {
    predicate Valid() {
      Forward(output) && NoNewline(keys) && cap <= SCREEN_CAP
    }
  }

  /** The screen as the line is begun, and as it is finished. */
  function Prompted(t: Tape, x: Exchange, color: byte): (t': Tape)
    requires t.Valid()
    ensures t'.Valid()
  {
    (if x.clear then Cleared(color) else t).PutAll(x.output, color)
  }

  function Finished(t: Tape, x: Exchange, color: byte): (t': Tape)
    requires t.Valid()
    ensures t'.Valid()
  {
    var typed := Prompted(t, x, color).PutAll(EchoAll([], x.keys, x.cap), color);
    if x.newline then typed.Put(NEWLINE, color) else typed
  }

  function AfterAll(xs: seq<Exchange>, color: byte): (t: Tape)
    ensures t.Valid()
  {
    if xs == [] then Cleared(color) else Finished(AfterAll(xs[..|xs| - 1], color), xs[|xs| - 1], color)
  }

  lemma PromptedIsReady(t: Tape, x: Exchange, color: byte)
    requires Ready(t, color) && x.Valid()
    ensures Ready(Prompted(t, x, color), color)
  {
    PrintKeepsReady(if x.clear then Cleared(color) else t, x.output, color);
  }

  lemma FinishedIsReady(t: Tape, x: Exchange, color: byte)
    requires Ready(t, color) && x.Valid()
    ensures Ready(Finished(t, x, color), color)
  {
    hide Tape.PutAll, Tape.Put, Prompted, EchoAll, EditAll;
    PromptedIsReady(t, x, color);
    EchoShowsLine(Prompted(t, x, color), x.keys, x.cap, color);
    PutKeepsReady(Prompted(t, x, color).PutAll(EchoAll([], x.keys, x.cap), color), NEWLINE, color);
  }

  lemma {:induction false} AfterAllIsReady(xs: seq<Exchange>, color: byte)
    requires forall x :: x in xs ==> x.Valid()
    ensures Ready(AfterAll(xs, color), color)
    decreases |xs|
  {
    hide Ready, Finished, Exchange.Valid;
    if xs == [] {
      ClearedIsReady(color);
    } else {
      var n := |xs| - 1;
      AfterAllIsReady(xs[..n], color);
      assert xs[n] in xs;
      FinishedIsReady(AfterAll(xs[..n], color), xs[n], color);
    }
  }

  lemma ClearedIsReady(color: byte)
    ensures Ready(Cleared(color), color)
  {
  }

  /**
   From a cleared screen, through any number of lines with output in between: at every moment the
   screen shows the line being edited, right where the prompt ended.
   */
  lemma SessionShowsLine(xs: seq<Exchange>, x: Exchange, color: byte)
    requires (forall y :: y in xs ==> y.Valid()) && x.Valid()
    ensures var start := Prompted(AfterAll(xs, color), x, color);
            && Ready(start, color)
            && Shows(start.PutAll(EchoAll([], x.keys, x.cap), color), start, EditAll([], x.keys, x.cap), color)
  {
    hide Tape.PutAll, Prompted, EchoAll, EditAll, AfterAll, Ready, Shows;
    AfterAllIsReady(xs, color);
    PromptedIsReady(AfterAll(xs, color), x, color);
    EchoShowsLine(Prompted(AfterAll(xs, color), x, color), x.keys, x.cap, color);
  }

  /** An editor with this cap never loses step with the screen. */
  ghost predicate Faithful(cap: nat) {
    forall start: Tape, keys: seq<Key>, color: byte :: Ready(start, color) && NoNewline(keys) ==>
      InStep(start.PutAll(EchoAll([], keys, cap), color), start, EditAll([], keys, cap), color)
  }

  lemma {:induction false} TypedText(text: seq<Key>, cap: nat)
    requires |text| <= cap && forall k :: k in text ==> IsText(k)
    ensures EditAll([], text, cap) == text
    decreases |text|
  {
    if text == [] {
    } else {
      var n := |text| - 1;
      TypedText(text[..n], cap);
      assert text[n] in text;
      assert EditAll([], text, cap) == text[..n] + [text[n]];
    }
  }

  lemma {:induction false} ErasedText(line: seq<byte>, erases: seq<Key>, cap: nat)
    requires |erases| <= |line| && forall k :: k in erases ==> IsErase(k)
    ensures EditAll(line, erases, cap) == line[..|line| - |erases|]
    decreases |erases|
  {
    if erases == [] {
      assert line[..|line| - |erases|] == line;
    } else {
      var n := |erases| - 1;
      ErasedText(line, erases[..n], cap);
      var left := line[..|line| - n];
      assert IsErase(erases[n]);
      assert EditAll(line, erases, cap) == Edit(left, erases[n], cap) == left[..|left| - 1];
      assert left[..|left| - 1] == line[..|line| - |erases|];
    }
  }

  /**
   In step with 1921 characters from the last column of the first row, the window has moved
   past the line's start, so the cursor cannot be back there.
   */
  lemma StartScrolledOff(typed: Tape, erased: Tape, start: Tape, text: seq<byte>, color: byte)
    requires start.Valid() && start.pos == COLS - 1 && |text| == SCREEN_CAP + 1
    requires InStep(typed, start, text, color) && erased.pos >= typed.top * COLS
    ensures !InStep(erased, start, [], color)
  {
  }

  /** A line of 1921 characters begun in the last column scrolls its own start off the screen. */
  lemma LongLineLosesStart(cap: nat)
    requires cap > SCREEN_CAP
    ensures !Faithful(cap)
  {
    hide Tape.PutAll, EditAll, EchoAll, InStep;
    var start := Tape(Blanks(CELLS, 15), COLS - 1, 0);
    var text: seq<Key> := seq(SCREEN_CAP + 1, _ => 0x61);
    var erases: seq<Key> := seq(SCREEN_CAP + 1, _ => BACKSPACE);
    TypedText(text, cap);
    EditAppend([], text, erases, cap);
    ErasedText(text, erases, cap);
    var typed := start.PutAll(EchoAll([], text, cap), 15);
    var erased := start.PutAll(EchoAll([], text + erases, cap), 15);
    PutAllAppend(start, EchoAll([], text, cap), EchoAll(text, erases, cap), 15);
    ScrolledRowsAreFrozen(typed, EchoAll(text, erases, cap), 15);
    if Faithful(cap) {
      FaithfulAt(cap, start, text, 15);
      FaithfulAt(cap, start, text + erases, 15);
      StartScrolledOff(typed, erased, start, text, 15);
    }
  }

  lemma FaithfulAt(cap: nat, start: Tape, keys: seq<Key>, color: byte)
    requires Faithful(cap) && Ready(start, color) && NoNewline(keys)
    ensures InStep(start.PutAll(EchoAll([], keys, cap), color), start, EditAll([], keys, cap), color)
  {
  }

  /** Exactly the editors that stop at 1920 characters keep the screen right for every start and every key. */
  lemma FaithfulIff(cap: nat)
    ensures Faithful(cap) <==> cap <= SCREEN_CAP
  {
    if cap <= SCREEN_CAP {
      forall start: Tape, keys: seq<Key>, color: byte | Ready(start, color) && NoNewline(keys)
        ensures InStep(start.PutAll(EchoAll([], keys, cap), color), start, EditAll([], keys, cap), color)
      {
        EchoShowsLine(start, keys, cap, color);
      }
    } else {
      LongLineLosesStart(cap);
    }
  }
}
