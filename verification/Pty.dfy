/** The pseudo terminal with its ring buffers and line buffer, refined to `PtySpec`. */
module Pty {
  import opened Bytes
  import opened Ring
  import opened PtySpec

  class Fifo {
    const buf: array<byte>
    var r: nat
    var w: nat

    ghost predicate Valid()
      reads this
    {
      buf.Length == FIFO_CAP && r < FIFO_CAP && w < FIFO_CAP
    }

    ghost function Contents(): (s: seq<byte>)
      requires Valid()
      reads this, buf
      ensures |s| <= FIFO_CAP - 1
    {
      Unread(buf[..], r, w)
    }

    constructor ()
      ensures Valid() && Contents() == [] && fresh(buf)
    {
      r, w := 0, 0;
      buf := new byte[FIFO_CAP];
    }

    method StoreByte(c: byte)
      requires Valid()
      modifies buf
      ensures buf[..] == old(buf[..])[..w] + [c] + old(buf[..])[w + 1..]
    {
      buf[w] := c;
    }

    lemma NextPosition(k: nat)
      requires k < FIFO_CAP
      ensures (k + 1) % FIFO_CAP == Wrap(k + 1, FIFO_CAP)
    {
    }

    /** One byte goes in if there is room. */
    method PutByte(c: byte) returns (ok: bool)
      requires Valid()
      modifies this`w, buf
      ensures Valid() && Contents() == Put(old(Contents()), c)
      ensures ok <==> |old(Contents())| < FIFO_CAP - 1
    {
      if FIFO_CAP - Distance(r, w, FIFO_CAP) - 1 == 0 {
        return false;
      }
      StoreByte(c);
      UnreadPut(old(buf[..]), buf[..], r, w, [c]);
      NextPosition(w);
      w := (w + 1) % FIFO_CAP;
      ok := true;
    }

    /** `fifo_write`: stops at the first byte that does not fit. */
    method Write(data: seq<byte>) returns (written: nat)
      requires Valid()
      modifies this`w, buf
      ensures Valid() && Contents() == PutAll(old(Contents()), data)
    {
      written := 0;
      assert data[0..] == data;
      while written < |data|
        invariant written <= |data| && Valid()
        invariant PutAll(Contents(), data[written..]) == PutAll(old(Contents()), data)
        decreases |data| - written
      {
        assert data[written..][1..] == data[written + 1..];
        var ok := PutByte(data[written]);
        if !ok {
          FullStays(Contents(), data[written..]);
          return;
        }
        written := written + 1;
      }
    }

    method GetByte() returns (c: byte)
      requires Valid() && Contents() != []
      modifies this`r
      ensures Valid() && c == old(Contents())[0] && Contents() == old(Contents())[1..]
    {
      c := buf[r];
      UnreadDrop(buf[..], r, w, 1);
      NextPosition(r);
      r := (r + 1) % FIFO_CAP;
    }

    /** `fifo_read` */
    method Read(size: nat) returns (data: seq<byte>)
      requires Valid()
      modifies this`r
      ensures Valid()
      ensures var q := old(Contents());
              var k := if size < |q| then size else |q|;
              data == q[..k] && Contents() == q[k..]
    {
      data := [];
      ghost var all := Contents();
      while |data| < size && Distance(r, w, FIFO_CAP) > 0
        invariant Valid() && |data| <= size && data + Contents() == all
        decreases size - |data|
      {
        OneOver(data, Contents());
        var c := GetByte();
        data := data + [c];
      }
      CutOff(data, Contents());
    }

    /** The first byte of a queue joins the bytes already read. */
    lemma OneOver(data: seq<byte>, q: seq<byte>)
      requires q != []
      ensures data + [q[0]] + q[1..] == data + q
    {
    }

    lemma CutOff(data: seq<byte>, q: seq<byte>)
      ensures (data + q)[..|data|] == data && (data + q)[|data|..] == q
    {
    }
  }

  lemma {:induction false} FullStays(q: seq<byte>, s: seq<byte>)
    requires |q| >= FIFO_CAP - 1
    ensures PutAll(q, s) == q
    decreases |s|
  {
    if s != [] {
      FullStays(q, s[1..]);
    }
  }

  class Terminal {
    var term: Term
    const toMaster: Fifo
    const toSlave: Fifo
    const lineBuf: array<byte>
    var lineLen: nat

    ghost predicate Valid()
      reads this, toMaster, toSlave
    {
      && toMaster != toSlave && toMaster.buf != toSlave.buf && lineBuf != toMaster.buf && lineBuf != toSlave.buf
      && toMaster.Valid() && toSlave.Valid()
      && lineBuf.Length == LINE_CAP && lineLen < LINE_CAP
    }

    ghost function View(): State
      requires Valid()
      reads this, toMaster, toSlave, toMaster.buf, toSlave.buf, lineBuf
    {
      State(lineBuf[..lineLen], toSlave.Contents(), toMaster.Contents())
    }

    constructor (term: Term)
      ensures Valid() && this.term == term && View() == START.st
      ensures fresh(toMaster) && fresh(toSlave) && fresh(toMaster.buf) && fresh(toSlave.buf) && fresh(lineBuf)
    {
      this.term := term;
      toMaster := new Fifo();
      toSlave := new Fifo();
      lineBuf := new byte[LINE_CAP];
      lineLen := 0;
    }

    /** `pty_write_output` */
    method WriteOutput(data: seq<byte>)
      requires Valid()
      modifies toMaster`w, toMaster.buf
      ensures Valid() && View() == old(View()).(master := Output(term, old(View().master), data))
    {
      assert data[0..] == data;
      for i := 0 to |data|
        invariant Valid() && View().line == old(View().line) && View().slave == old(View().slave)
        invariant Output(term, View().master, data[i..]) == Output(term, old(View().master), data)
      {
        assert data[i..][1..] == data[i + 1..];
        PutCooked(data[i]);
      }
    }

    method PutCooked(c: byte)
      requires Valid()
      modifies toMaster`w, toMaster.buf
      ensures Valid() && View() == old(View()).(master := PutAll(old(View().master), Cooked(term, c)))
    {
      if c == CR && term.ocrnl {
        var _ := toMaster.Write([NL]);
      } else if c == CR && term.onlret {
      } else if c == NL && term.onlcr {
        PutAllConcat(toMaster.Contents(), [CR], [c]);
        assert [CR] + [c] == [CR, c];
        var _ := toMaster.Write([CR]);
        var _ := toMaster.Write([c]);
      } else {
        var _ := toMaster.Write([c]);
      }
    }

    /** `pty_echo_char` and `pty_echo_backspace` */
    method EchoBytes(s: seq<byte>)
      requires Valid()
      modifies toMaster`w, toMaster.buf
      ensures Valid() && View() == Echo(term, old(View()), s)
    {
      if term.echo {
        WriteOutput(s);
      }
    }

    /** `pty_commit_line` */
    method CommitLine()
      requires Valid()
      modifies this`lineLen, toSlave`w, toSlave.buf
      ensures Valid()
      ensures View() == old(View()).(line := [], slave := PutAll(old(View().slave), old(View().line) + [NL]))
    {
      ghost var line := lineBuf[..lineLen];
      PutAllConcat(toSlave.Contents(), line, [NL]);
      if lineLen == 0 {
        assert line + [NL] == [NL];
        var _ := toSlave.Write([NL]);
        return;
      }
      var _ := toSlave.Write(lineBuf[..lineLen]);
      var _ := toSlave.Write([NL]);
      lineLen := 0;
    }

    method DropLast()
      requires Valid() && lineLen > 0
      modifies this`lineLen
      ensures Valid() && View() == old(View()).(line := old(View().line)[..old(lineLen) - 1])
    {
      lineLen := lineLen - 1;
      assert lineBuf[..lineLen] == old(lineBuf[..lineLen])[..lineLen];
    }

    method AppendLine(c: byte)
      requires Valid() && lineLen < LINE_CAP - 1
      modifies this`lineLen, lineBuf
      ensures Valid() && View() == old(View()).(line := old(View().line) + [c])
    {
      lineBuf[lineLen] := c;
      lineLen := lineLen + 1;
    }

    /** One translated byte. */
    method TakeByte(c: byte) returns (counted: bool)
      requires Valid()
      modifies this`lineLen, lineBuf, toMaster`w, toMaster.buf, toSlave`w, toSlave.buf
      ensures Valid() && (View(), counted) == Accept(term, old(View()), c)
    {
      if term.icanon {
        if c == term.erase || c == BS {
          if lineLen > 0 {
            DropLast();
            EchoBytes([BS, SPACE, BS]);
          }
          return false;
        }
        if c == NL {
          CommitLine();
          EchoBytes([c]);
          return true;
        }
        if lineLen < LINE_CAP - 1 {
          AppendLine(c);
          EchoBytes([c]);
          return true;
        }
        return false;
      }
      var _ := toSlave.Write([c]);
      EchoBytes([c]);
      counted := true;
    }

    /** `pty_master_write_data` */
    method MasterWrite(data: seq<byte>) returns (written: nat)
      requires Valid()
      modifies this`lineLen, lineBuf, toMaster`w, toMaster.buf, toSlave`w, toSlave.buf
      ensures Valid() && (View(), written) == Feed(term, old(View()), data)
    {
      written := 0;
      ghost var st0 := View();
      assert data[0..] == data;
      for i := 0 to |data|
        invariant Valid()
        invariant Feed(term, View(), data[i..]).0 == Feed(term, st0, data).0
        invariant written + Feed(term, View(), data[i..]).1 == Feed(term, st0, data).1
      {
        assert data[i..][1..] == data[i + 1..];
        var c := Translate(term, data[i]);
        if c.None? {
          continue;
        }
        var counted := TakeByte(c.value);
        if counted {
          written := written + 1;
        }
      }
    }

    /** `pty_slave_read` */
    method SlaveRead(size: nat) returns (data: seq<byte>)
      requires Valid()
      modifies toSlave`r
      ensures Valid()
      ensures var q := old(View().slave);
              var k := if size < |q| then size else |q|;
              data == q[..k] && View() == old(View()).(slave := q[k..])
    {
      data := toSlave.Read(size);
    }
  }
}
