/**
 The two line editors -- the shell's `readline` and newlib's `read` on standard input -- over
 a stream of keys, and what they leave on the screen.
 */
module LineEdit {
  import opened Machine
  import opened Vga

  /** What `getchar` answers: a byte, or a negative error. */
  type Key = k: int | -1 <= k < 0x100

  const DELETE := 0x7F

  /** `LINE_MAX - 1` */
  const LINE_CAP: nat := 127

  /** The longest line whose start is sure to stay on the screen. */
  const SCREEN_CAP: nat := 1920

  const ERASE: seq<byte> := [BACKSPACE, SPACE, BACKSPACE]

  predicate IsNewline(k: Key) {
    k == RETURN || k == NEWLINE
  }

  predicate IsErase(k: Key) {
    k == BACKSPACE || k == DELETE
  }

  predicate IsText(k: Key) {
    k >= SPACE && k != DELETE
  }

  /** The line after one key that is not a newline. */
  function Edit(line: seq<byte>, k: Key, cap: nat): seq<byte> {
    if IsErase(k) then (if |line| > 0 then line[..|line| - 1] else line)
    else if IsText(k) && |line| < cap then line + [k]
    else line
  }

  /** What the editor prints for it. */
  function Echo(line: seq<byte>, k: Key, cap: nat): seq<byte> {
    if IsErase(k) then (if |line| > 0 then ERASE else [])
    else if IsText(k) && |line| < cap then [k]
    else []
  }

  /** The line after all of `keys`. */
  function EditAll(line: seq<byte>, keys: seq<Key>, cap: nat): seq<byte>
    decreases |keys|
  {
    if keys == [] then line else Edit(EditAll(line, keys[..|keys| - 1], cap), keys[|keys| - 1], cap)
  }

  /** Everything printed for `keys`. */
  function EchoAll(line: seq<byte>, keys: seq<Key>, cap: nat): seq<byte>
    decreases |keys|
  {
    if keys == [] then []
    else
      var k := |keys| - 1;
      EchoAll(line, keys[..k], cap) + Echo(EditAll(line, keys[..k], cap), keys[k], cap)
  }

  /** The reduction both editors implement: text keys append, erase keys take the last one back. */
  function Reduce(keys: seq<Key>): seq<byte>
    decreases |keys|
  {
    if keys == [] then []
    else
      var line, k := Reduce(keys[..|keys| - 1]), keys[|keys| - 1];
      if IsErase(k) then (if |line| > 0 then line[..|line| - 1] else [])
      else if IsText(k) then line + [k]
      else line
  }

  /* The editors. */

  /** How a call ends, given the keys that follow: with a line, with an error, or still waiting for a key. */
  datatype Status = Done | Failed | Waiting

  datatype Session = Session(status: Status, line: seq<byte>, rest: seq<Key>, echo: seq<byte>)

  function ReadLineFrom(line: seq<byte>, keys: seq<Key>): Session
    decreases |keys|
  {
    if keys == [] then Session(Waiting, line, [], [])
    else if IsNewline(keys[0]) then Session(Done, line, keys[1..], [NEWLINE])
    else
      var s := ReadLineFrom(Edit(line, keys[0], LINE_CAP), keys[1..]);
      s.(echo := Echo(line, keys[0], LINE_CAP) + s.echo)
  }

  function ReadFrom(line: seq<byte>, keys: seq<Key>, len: nat): Session
    decreases |keys|
  {
    if |line| >= len then Session(Done, line, keys, [])
    else if keys == [] then Session(Waiting, line, [], [])
    else if keys[0] < 0 then Session(Failed, line, keys[1..], [])
    else if IsNewline(keys[0]) then Session(Done, line + [NEWLINE], keys[1..], [NEWLINE])
    else
      var s := ReadFrom(Edit(line, keys[0], len), keys[1..], len);
      s.(echo := Echo(line, keys[0], len) + s.echo)
  }

  class Keys {
    var pending: seq<Key>

    constructor (pending: seq<Key>)
      ensures this.pending == pending
    {
      this.pending := pending;
    }

    method GetChar() returns (k: Option<Key>)
      modifies this
      ensures old(pending) == [] ==> k == None && pending == []
      ensures old(pending) != [] ==> k == Some(old(pending)[0]) && pending == old(pending)[1..]
    {
      if pending == [] {
        return None;
      }
      k := Some(pending[0]);
      pending := pending[1..];
    }
  }

  /** The shell's `readline`: `None` while the newline has not come. */
  method ReadLine(screen: Screen, keys: Keys, buf: array<byte>) returns (r: Option<nat>)
    requires screen.Valid() && buf.Length == LINE_CAP + 1
    modifies screen`row, screen`col, screen`shownCursor, screen`tape, screen.buffer, keys, buf
    ensures screen.Valid()
    ensures var s := ReadLineFrom([], old(keys.pending));
            && keys.pending == s.rest
            && screen.tape == old(screen.tape).PutAll(s.echo, screen.color)
            && (s.status == Done <==> r.Some?)
            && (r.Some? ==> r.value == |s.line| <= LINE_CAP && buf[..r.value] == s.line && buf[r.value] == 0)
  {
    hide Tape.Put, Tape.PutAll;
    PutOne(screen.tape, NEWLINE, screen.color);
    var len: nat := 0;
    ghost var echoed: seq<byte> := [];
    while true
      invariant screen.Valid() && len <= LINE_CAP
      invariant var s, now := ReadLineFrom([], old(keys.pending)), ReadLineFrom(buf[..len], keys.pending);
                s == now.(echo := echoed + now.echo)
      invariant screen.tape == old(screen.tape).PutAll(echoed, screen.color)
      decreases |keys.pending|
    {
      ghost var line, before := buf[..len], echoed;
      var key := keys.GetChar();
      if key.None? {
        assert echoed + [] == echoed;
        return None;
      }
      var c := key.value;
      if IsNewline(c) {
        screen.PutChar(NEWLINE);
        PutAllAppend(old(screen.tape), before, [NEWLINE], screen.color);
        PutOne(old(screen.tape).PutAll(before, screen.color), NEWLINE, screen.color);
        buf[len] := 0;
        return Some(len);
      }
      ghost var e := Echo(line, c, LINE_CAP);
      if IsErase(c) {
        if len > 0 {
          len := len - 1;
          screen.Print(ERASE);
        }
      } else if c >= SPACE && len < LINE_CAP {
        buf[len] := c;
        len := len + 1;
        screen.PutChar(c);
        PutOne(old(screen.tape).PutAll(before, screen.color), c, screen.color);
      }
      echoed := echoed + e;
      PutAllAppend(old(screen.tape), before, e, screen.color);
      assert buf[..len] == Edit(line, c, LINE_CAP);
      EchoAssoc(before, e, ReadLineFrom(buf[..len], keys.pending).echo);
    }
  }

  datatype Errno = ENOSYS | EBADF | EIO

  /** What `read` answers: a count, -1 with `errno` set, or nothing while it waits for a key. */
  datatype Answer = Count(n: int) | Error(errno: Errno) | Blocked

  /** The cast of the count to `int`. */
  function ToInt(n: nat): (r: int)
    ensures -0x8000_0000 <= r < 0x8000_0000 && (n - r) % 0x1_0000_0000 == 0
  {
    var t := Trunc32(n);
    if t < 0x8000_0000 then t else t - U32
  }

  /** newlib's `read(0, buf, len)`. */
  method ReadStdin(screen: Screen, keys: Keys, buf: array<byte>, len: nat) returns (r: Answer)
    requires screen.Valid() && len <= buf.Length
    modifies screen`row, screen`col, screen`shownCursor, screen`tape, screen.buffer, keys, buf
    ensures screen.Valid()
    ensures var s := ReadFrom([], old(keys.pending), len);
            && keys.pending == s.rest
            && screen.tape == old(screen.tape).PutAll(s.echo, screen.color)
            && (s.status == Waiting <==> r == Blocked)
            && (s.status == Failed <==> r == Error(EIO))
            && (s.status == Done ==> r == Count(ToInt(|s.line|)) && |s.line| <= len && buf[..|s.line|] == s.line)
  {
    hide Tape.Put, Tape.PutAll;
    PutOne(screen.tape, NEWLINE, screen.color);
    var n: nat := 0;
    ghost var echoed: seq<byte> := [];
    while n < len
      invariant screen.Valid() && n <= len
      invariant var s, now := ReadFrom([], old(keys.pending), len), ReadFrom(buf[..n], keys.pending, len);
                s == now.(echo := echoed + now.echo)
      invariant screen.tape == old(screen.tape).PutAll(echoed, screen.color)
      decreases |keys.pending|
    {
      ghost var line, before := buf[..n], echoed;
      var key := keys.GetChar();
      if key.None? {
        assert echoed + [] == echoed;
        return Blocked;
      }
      var c := key.value;
      if c < 0 {
        assert echoed + [] == echoed;
        return Error(EIO);
      }
      if IsNewline(c) {
        screen.PutChar(NEWLINE);
        PutAllAppend(old(screen.tape), before, [NEWLINE], screen.color);
        PutOne(old(screen.tape).PutAll(before, screen.color), NEWLINE, screen.color);
        buf[n] := NEWLINE;
        n := n + 1;
        assert buf[..n] == line + [NEWLINE];
        return Count(ToInt(n));
      }
      ghost var e := Echo(line, c, len);
      if IsErase(c) {
        if n > 0 {
          n := n - 1;
          screen.Print(ERASE);
        }
      } else if c >= SPACE {
        buf[n] := c;
        n := n + 1;
        screen.PutChar(c);
        PutOne(old(screen.tape).PutAll(before, screen.color), c, screen.color);
      }
      echoed := echoed + e;
      PutAllAppend(old(screen.tape), before, e, screen.color);
      assert buf[..n] == Edit(line, c, len);
      EchoAssoc(before, e, ReadFrom(buf[..n], keys.pending, len).echo);
    }
    assert echoed + [] == echoed;
    return Count(ToInt(n));
  }

  /** `kst_read`, which knows no file but the console. */
  method KstRead(fd: int) returns (r: int)
    requires fd != 0
    ensures r == -1
  {
    return -1;
  }

  /** newlib's `read`: nothing without a services table, only the console as a file, and then a line. */
  method Read(table: bool, fd: int, screen: Screen, keys: Keys, buf: array<byte>, len: nat) returns (r: Answer)
    requires screen.Valid() && len <= buf.Length
    modifies screen`row, screen`col, screen`shownCursor, screen`tape, screen.buffer, keys, buf
    ensures screen.Valid()
    ensures !table ==> r == Error(ENOSYS)
    ensures table && fd != 0 ==> r == Error(EBADF)
    ensures !table || fd != 0 ==>
      keys.pending == old(keys.pending) && screen.tape == old(screen.tape) && buf[..] == old(buf[..])
    ensures table && fd == 0 ==>
      var s := ReadFrom([], old(keys.pending), len);
      && keys.pending == s.rest
      && screen.tape == old(screen.tape).PutAll(s.echo, screen.color)
      && (s.status == Waiting <==> r == Blocked)
      && (s.status == Failed <==> r == Error(EIO))
      && (s.status == Done ==> r == Count(ToInt(|s.line|)) && |s.line| <= len && buf[..|s.line|] == s.line)
  {
    hide ReadFrom, Tape.PutAll;
    if !table {
      return Error(ENOSYS);
    }
    if fd != 0 {
      var n := KstRead(fd);
      if n < 0 {
        return Error(EBADF);
      }
      return Count(n);
    }
    r := ReadStdin(screen, keys, buf, len);
  }

  lemma PutOne(t: Tape, c: byte, color: byte)
    requires t.Valid()
    ensures t.PutAll([c], color) == t.Put(c, color)
    ensures t.PutAll([], color) == t
  {
  }

  lemma EchoAssoc(a: seq<byte>, b: seq<byte>, c: seq<byte>)
    ensures a + (b + c) == a + b + c
    ensures a + [] == a
  {
  }
}
