/** The line discipline of a pseudo terminal: a byte transducer with bounded queues, and the
    line editing it stands for. */
module PtySpec {
  import opened Wrappers
  import opened Bytes

  const CR: byte := 13
  const NL: byte := 10
  const BS: byte := 8
  const SPACE: byte := 32
  const FIFO_CAP := 4096
  const LINE_CAP := 4096

  /** The terminal settings that matter here. */
  datatype Term = Term(istrip: bool, igncr: bool, icrnl: bool, inlcr: bool,
                       ocrnl: bool, onlret: bool, onlcr: bool, echo: bool, icanon: bool, erase: byte)

  /** `pty_translate_input`; `None` when the byte is dropped. */
  function Translate(t: Term, c: byte): Option<byte> {
    var c1: byte := if t.istrip then c % 128 else c;
    if c1 == CR then
      if t.igncr then None else if t.icrnl then Some(NL) else Some(CR)
    else if c1 == NL then if t.inlcr then Some(CR) else Some(NL)
    else Some(c1)
  }

  // ---- Bounded queues ----

  /** A queue holds one byte less than its buffer; what does not fit is lost. */
  function Put(q: seq<byte>, c: byte): seq<byte> {
    if |q| < FIFO_CAP - 1 then q + [c] else q
  }

  function PutAll(q: seq<byte>, s: seq<byte>): seq<byte>
    decreases |s|
  {
    if s == [] then q else PutAll(Put(q, s[0]), s[1..])
  }

  lemma {:induction false} PutAllFits(q: seq<byte>, s: seq<byte>)
    requires |q| + |s| <= FIFO_CAP - 1
    ensures PutAll(q, s) == q + s
    decreases |s|
  {
    if s == [] {
      assert q + s == q;
    } else {
      PutAllFits(q + [s[0]], s[1..]);
      assert q + [s[0]] + s[1..] == q + s;
    }
  }

  lemma {:induction false} PutAllConcat(q: seq<byte>, a: seq<byte>, b: seq<byte>)
    ensures PutAll(q, a + b) == PutAll(PutAll(q, a), b)
    decreases |a|
  {
    if a == [] {
      assert a + b == b;
    } else {
      assert (a + b)[1..] == a[1..] + b;
      PutAllConcat(Put(q, a[0]), a[1..], b);
    }
  }

  // ---- The transducer ----

  /** Uncommitted line, bytes ready for the slave, bytes ready for the master. */
  datatype State = State(line: seq<byte>, slave: seq<byte>, master: seq<byte>)

  /** What output processing makes of one byte. */
  function Cooked(t: Term, c: byte): seq<byte> {
    if c == CR && t.ocrnl then [NL]
    else if c == CR && t.onlret then []
    else if c == NL && t.onlcr then [CR, c]
    else [c]
  }

  /** `pty_write_output` */
  function Output(t: Term, q: seq<byte>, s: seq<byte>): seq<byte>
    decreases |s|
  {
    if s == [] then q else Output(t, PutAll(q, Cooked(t, s[0])), s[1..])
  }

  function Echo(t: Term, st: State, s: seq<byte>): State {
    if t.echo then st.(master := Output(t, st.master, s)) else st
  }

  /** One translated byte; also whether it counts as written. */
  function Accept(t: Term, st: State, c: byte): (State, bool) {
    if t.icanon then
      if c == t.erase || c == BS then
        if st.line == [] then (st, false) else (Echo(t, st.(line := st.line[..|st.line| - 1]), [BS, SPACE, BS]), false)
      else if c == NL then
        (Echo(t, st.(slave := PutAll(st.slave, st.line + [NL]), line := []), [c]), true)
      else if |st.line| < LINE_CAP - 1 then (Echo(t, st.(line := st.line + [c]), [c]), true)
      else (st, false)
    else (Echo(t, st.(slave := Put(st.slave, c)), [c]), true)
  }

  function Byte(t: Term, st: State, c: byte): (State, bool) {
    match Translate(t, c)
    case None => (st, false)
    case Some(d) => Accept(t, st, d)
  }

  /** `pty_master_write_data`: new state and number of bytes written. */
  function Feed(t: Term, st: State, data: seq<byte>): (State, nat)
    decreases |data|
  {
    if data == [] then (st, 0)
    else
      var (st1, w) := Byte(t, st, data[0]);
      var (st2, n) := Feed(t, st1, data[1..]);
      (st2, (if w then 1 else 0) + n)
  }

  /** How a write is cut into pieces makes no difference, to any mode and any fill level. */
  lemma {:induction false} FeedInPieces(t: Term, st: State, a: seq<byte>, b: seq<byte>)
    ensures Feed(t, st, a + b).0 == Feed(t, Feed(t, st, a).0, b).0
    ensures Feed(t, st, a + b).1 == Feed(t, st, a).1 + Feed(t, Feed(t, st, a).0, b).1
    decreases |a|
  {
    if a == [] {
      assert a + b == b;
    } else {
      assert (a + b)[1..] == a[1..] + b;
      FeedInPieces(t, Byte(t, st, a[0]).0, a[1..], b);
    }
  }

  // ---- What single bytes do ----

  /** Input translation: with ISTRIP the low seven bits count; then IGNCR drops a carriage return, ICRNL
      makes it a newline, INLCR makes a newline a carriage return; every other byte stays. */
  lemma TranslateIs(t: Term, c: byte)
    ensures var d := if t.istrip && c >= 128 then c - 128 else c;
            Translate(t, c) ==
            if d == 13 && t.igncr then None
            else if d == 13 && t.icrnl then Some(10)
            else if d == 10 && t.inlcr then Some(13)
            else Some(d)
  {
  }

  /** What output processing makes of a text, put together byte by byte: ONLCR puts a carriage return in
      front of a newline, OCRNL makes a carriage return a newline, ONLRET drops it otherwise. */
  function Processed(t: Term, s: seq<byte>): seq<byte> {
    if s == [] then []
    else
      (if s[0] == 10 && t.onlcr then [13, 10]
       else if s[0] == 13 && t.ocrnl then [10]
       else if s[0] == 13 && t.onlret then []
       else [s[0]]) + Processed(t, s[1..])
  }

  /** The master sees the processed text, as far as there is room. */
  lemma {:induction false} OutputIsProcessed(t: Term, q: seq<byte>, s: seq<byte>)
    ensures Output(t, q, s) == PutAll(q, Processed(t, s))
    decreases |s|
  {
    if s != [] {
      OutputIsProcessed(t, PutAll(q, Cooked(t, s[0])), s[1..]);
      assert Processed(t, s) == Cooked(t, s[0]) + Processed(t, s[1..]);
      PutAllConcat(q, Cooked(t, s[0]), Processed(t, s[1..]));
    }
  }

  /** A text without its carriage returns. */
  function WithoutReturns(s: seq<byte>): seq<byte> {
    if s == [] then [] else (if s[0] == 13 then [] else [s[0]]) + WithoutReturns(s[1..])
  }

  /** With ONLCR alone a text without carriage returns comes out with one in front of every newline, and
      leaving them out gives the text back. */
  lemma {:induction false} ReturnsAdded(t: Term, s: seq<byte>)
    requires t.onlcr && !t.ocrnl && 13 !in s
    ensures WithoutReturns(Processed(t, s)) == s
    ensures forall i :: 0 <= i < |Processed(t, s)| && Processed(t, s)[i] == 10 ==> i > 0 && Processed(t, s)[i - 1] == 13
  {
    if s != [] {
      ReturnsAdded(t, s[1..]);
      assert s == [s[0]] + s[1..];
      ReturnInFront(s[0], Processed(t, s[1..]));
    }
  }

  /** One processed byte in front of more. */
  lemma {:induction false} ReturnInFront(c: byte, rest: seq<byte>)
    requires c != 13
    requires forall i :: 0 <= i < |rest| && rest[i] == 10 ==> i > 0 && rest[i - 1] == 13
    ensures var r := (if c == 10 then [13, 10] else [c]) + rest;
            && WithoutReturns(r) == [c] + WithoutReturns(rest)
            && forall i :: 0 <= i < |r| && r[i] == 10 ==> i > 0 && r[i - 1] == 13
  {
    if c == 10 {
      var r: seq<byte> := [13, 10] + rest;
      assert r[1..] == [10] + rest && r[1..][1..] == rest;
    } else {
      assert ([c] + rest)[1..] == rest;
    }
  }

  /** A write takes its bytes one by one and counts those that were typed or sent, so not those that were
      dropped, that erase, or for which the line has no room. */
  lemma {:induction false} FeedCounts(t: Term, st: State, c: byte, rest: seq<byte>)
    ensures var (st1, w) := Byte(t, st, c);
            Feed(t, st, [c] + rest) == (Feed(t, st1, rest).0, Feed(t, st1, rest).1 + if w then 1 else 0)
  {
    assert ([c] + rest)[1..] == rest;
  }

  /** A byte that is neither end of line nor erase. */
  predicate IsText(t: Term, c: byte) { c != 13 && c != 10 && c != 8 && c != t.erase && (t.istrip ==> c < 128) }

  /** Typing a text byte adds it to the line, and echo shows it, unless the line has 4095 bytes. */
  lemma {:induction false} TextTyped(t: Term, st: State, c: byte)
    requires t.icanon && IsText(t, c)
    ensures Byte(t, st, c) ==
            if |st.line| < 4095
            then (st.(line := st.line + [c], master := if t.echo then PutAll(st.master, [c]) else st.master), true)
            else (st, false)
  {
    if |st.line| < LINE_CAP - 1 {
      EchoIs(t, st.(line := st.line + [c]), [c]);
      assert Processed(t, [c]) == [c];
    }
  }

  lemma {:induction false} EchoIs(t: Term, st: State, s: seq<byte>)
    ensures Echo(t, st, s) == st.(master := if t.echo then PutAll(st.master, Processed(t, s)) else st.master)
  {
    OutputIsProcessed(t, st.master, s);
  }

  /** A newline, and with ICRNL a carriage return, ends the line: it goes to the slave with a newline behind
      it, and echo shows the end of the line as output processing makes it. */
  lemma {:induction false} LineEnds(t: Term, st: State, c: byte)
    requires t.icanon && t.erase != 10
    requires (c == 10 && !t.inlcr) || (c == 13 && t.icrnl && !t.igncr)
    ensures Byte(t, st, c) ==
            (State([], PutAll(st.slave, st.line + [10]),
                   if t.echo then PutAll(st.master, if t.onlcr then [13, 10] else [10]) else st.master), true)
  {
    EchoIs(t, st.(slave := PutAll(st.slave, st.line + [10]), line := []), [10]);
    assert Processed(t, [10]) == if t.onlcr then [13, 10] else [10];
  }

  /** Erase takes the last byte off the line and wipes it from the screen, and does nothing on an empty
      line. */
  lemma {:induction false} ByteErased(t: Term, st: State, c: byte)
    requires t.icanon && (c == 8 || c == t.erase) && c != 10 && c != 13 && (t.istrip ==> c < 128)
    ensures Byte(t, st, c) ==
            if st.line == [] then (st, false)
            else (State(st.line[..|st.line| - 1], st.slave,
                        if t.echo then PutAll(st.master, [8, 32, 8]) else st.master), false)
  {
    if st.line != [] {
      EchoIs(t, st.(line := st.line[..|st.line| - 1]), [8, 32, 8]);
      var s: seq<byte> := [8, 32, 8];
      assert s[1..] == [32, 8] && s[1..][1..] == [8];
      assert Processed(t, [8]) == [8] && Processed(t, [32, 8]) == [32] + Processed(t, [8]);
      assert Processed(t, s) == [8] + Processed(t, [32, 8]);
    }
  }

  /** A carriage return does nothing under IGNCR. */
  lemma ReturnIgnored(t: Term, st: State)
    requires t.igncr
    ensures Byte(t, st, 13) == (st, false)
  {
  }

  /** Without line editing every byte goes to the slave at once. */
  lemma {:induction false} RawByte(t: Term, st: State, c: byte)
    requires !t.icanon && c != 13 && c != 10 && (t.istrip ==> c < 128)
    ensures Byte(t, st, c) ==
            (st.(slave := PutAll(st.slave, [c]), master := if t.echo then PutAll(st.master, [c]) else st.master), true)
  {
    EchoIs(t, st.(slave := Put(st.slave, c)), [c]);
    assert Processed(t, [c]) == [c];
    assert PutAll(st.slave, [c]) == Put(st.slave, c) by {
      assert [c][1..] == [];
    }
  }

  /** A queue keeps what fits and drops the rest. */
  lemma {:induction false} PutAllIs(q: seq<byte>, s: seq<byte>)
    requires |q| <= 4095
    ensures PutAll(q, s) == q + s[..if |s| <= 4095 - |q| then |s| else 4095 - |q|]
  {
    var n := 4095 - |q|;
    if |s| <= n {
      PutAllFits(q, s);
      assert s[..|s|] == s;
    } else {
      PutAllFits(q, s[..n]);
      PutAllConcat(q, s[..n], s[n..]);
      assert s == s[..n] + s[n..];
      PutAllFull(q + s[..n], s[n..]);
    }
  }

  lemma {:induction false} PutAllFull(q: seq<byte>, s: seq<byte>)
    requires |q| >= FIFO_CAP - 1
    ensures PutAll(q, s) == q
    decreases |s|
  {
    if s != [] {
      PutAllFull(q, s[1..]);
    }
  }

  // ---- What canonical input means ----

  /** Lines finished so far, one after the other, and the line being typed. */
  datatype Text = Text(done: seq<byte>, open: seq<byte>)

  predicate IsErase(t: Term, c: byte) { c == t.erase || c == BS }

  function EditByte(t: Term, x: Text, c: byte): Text {
    match Translate(t, c)
    case None => x
    case Some(d) =>
      if IsErase(t, d) then if x.open == [] then x else x.(open := x.open[..|x.open| - 1])
      else if d == NL then Text(x.done + x.open + [NL], [])
      else x.(open := x.open + [d])
  }

  function Edit(t: Term, x: Text, data: seq<byte>): Text
    decreases |data|
  {
    if data == [] then x else Edit(t, EditByte(t, x, data[0]), data[1..])
  }

  lemma {:induction false} EditInPieces(t: Term, x: Text, a: seq<byte>, b: seq<byte>)
    ensures Edit(t, x, a + b) == Edit(t, Edit(t, x, a), b)
    decreases |a|
  {
    if a == [] {
      assert a + b == b;
    } else {
      assert (a + b)[1..] == a[1..] + b;
      EditInPieces(t, EditByte(t, x, a[0]), a[1..], b);
    }
  }

  /** Finished lines stay as they are whatever is typed later, and end in a newline. */
  lemma {:induction false} DoneIsFinal(t: Term, x: Text, data: seq<byte>)
    requires x.done == [] || x.done[|x.done| - 1] == NL
    ensures x.done <= Edit(t, x, data).done
    ensures Edit(t, x, data).done == [] || Edit(t, x, data).done[|Edit(t, x, data).done| - 1] == NL
    ensures NL !in x.open ==> NL !in Edit(t, x, data).open
    decreases |data|
  {
    if data != [] {
      DoneIsFinal(t, EditByte(t, x, data[0]), data[1..]);
    }
  }

  // ---- Runs ----

  /** The master writes, or the slave reads up to `n` bytes. */
  datatype Op = Write(data: seq<byte>) | Read(n: nat)

  /** A run so far: the terminal, what the slave has read, and whether a byte was lost for lack of room. */
  datatype Session = Session(st: State, seen: seq<byte>, lost: bool)

  /** A byte is lost when the line or the slave's queue has no room for it. */
  predicate Loses(t: Term, st: State, c: byte) {
    match Translate(t, c)
    case None => false
    case Some(d) =>
      if IsErase(t, d) then false
      else if d == NL then |st.slave| + |st.line| + 1 > FIFO_CAP - 1
      else |st.line| >= LINE_CAP - 1
  }

  predicate LosesAny(t: Term, st: State, data: seq<byte>)
    decreases |data|
  {
    data != [] && (Loses(t, st, data[0]) || LosesAny(t, Byte(t, st, data[0]).0, data[1..]))
  }

  function Step(t: Term, s: Session, op: Op): Session {
    match op
    case Write(data) => Session(Feed(t, s.st, data).0, s.seen, s.lost || LosesAny(t, s.st, data))
    case Read(n) =>
      var k := if n < |s.st.slave| then n else |s.st.slave|;
      s.(st := s.st.(slave := s.st.slave[k..]), seen := s.seen + s.st.slave[..k])
  }

  function Run(t: Term, s: Session, ops: seq<Op>): Session {
    if ops == [] then s else Step(t, Run(t, s, ops[..|ops| - 1]), ops[|ops| - 1])
  }

  /** Everything the master wrote. */
  function Written(ops: seq<Op>): seq<byte> {
    if ops == [] then []
    else Written(ops[..|ops| - 1]) + match ops[|ops| - 1] case Write(data) => data case Read(_) => []
  }

  const START := Session(State([], [], []), [], false)

  /** The terminal's state says the same as the edited text. */
  predicate Agrees(st: State, seen: seq<byte>, x: Text) {
    seen + st.slave == x.done && st.line == x.open
  }

  lemma ByteAgrees(t: Term, st: State, seen: seq<byte>, x: Text, c: byte)
    requires t.icanon && Agrees(st, seen, x) && !Loses(t, st, c)
    ensures Agrees(Byte(t, st, c).0, seen, EditByte(t, x, c))
  {
    match Translate(t, c) {
      case None =>
      case Some(d) =>
        if !IsErase(t, d) && d == NL {
          PutAllFits(st.slave, st.line + [NL]);
          assert seen + (st.slave + (st.line + [NL])) == seen + st.slave + st.line + [NL];
        }
    }
  }

  /** The one way to fall behind the edited text is to lose a byte. */
  lemma {:induction false} LosesIff(t: Term, st: State, seen: seq<byte>, x: Text, c: byte)
    requires t.icanon && Agrees(st, seen, x)
    ensures Agrees(Byte(t, st, c).0, seen, EditByte(t, x, c)) <==> !Loses(t, st, c)
  {
    if !Loses(t, st, c) {
      ByteAgrees(t, st, seen, x, c);
    } else if Translate(t, c).value == NL {
      PutAllShort(st.slave, st.line + [NL]);
    }
  }

  /** What does not fit makes the queue shorter than it should be. */
  lemma {:induction false} PutAllShort(q: seq<byte>, s: seq<byte>)
    requires |q| + |s| > FIFO_CAP - 1 && s != []
    ensures |PutAll(q, s)| < |q| + |s|
    decreases |s|
  {
    if |q| < FIFO_CAP - 1 {
      PutAllShort(q + [s[0]], s[1..]);
    } else {
      PutAllFull(q, s);
    }
  }

  lemma {:induction false} FeedAgrees(t: Term, st: State, seen: seq<byte>, x: Text, data: seq<byte>)
    requires t.icanon && Agrees(st, seen, x) && !LosesAny(t, st, data)
    ensures Agrees(Feed(t, st, data).0, seen, Edit(t, x, data))
    decreases |data|
  {
    if data != [] {
      ByteAgrees(t, st, seen, x, data[0]);
      FeedAgrees(t, Byte(t, st, data[0]).0, seen, EditByte(t, x, data[0]), data[1..]);
    }
  }

  lemma ReadAgrees(t: Term, s: Session, n: nat, x: Text)
    requires Agrees(s.st, s.seen, x)
    ensures Agrees(Step(t, s, Read(n)).st, Step(t, s, Read(n)).seen, x)
  {
    var k := if n < |s.st.slave| then n else |s.st.slave|;
    assert s.st.slave == s.st.slave[..k] + s.st.slave[k..];
    assert s.seen + s.st.slave[..k] + s.st.slave[k..] == s.seen + s.st.slave;
  }

  /** Over every interleaving of writes and reads in canonical mode, as long as nothing was lost:
      what the slave has read and can read is exactly the finished lines of everything written. */
  lemma {:induction false} SlaveReadsTheEditedText(t: Term, ops: seq<Op>)
    requires t.icanon && !Run(t, START, ops).lost
    ensures var s := Run(t, START, ops);
            Agrees(s.st, s.seen, Edit(t, Text([], []), Written(ops))) && s.seen <= Edit(t, Text([], []), Written(ops)).done
  {
    if ops != [] {
      var front, op := ops[..|ops| - 1], ops[|ops| - 1];
      SlaveReadsTheEditedText(t, front);
      var s, x := Run(t, START, front), Edit(t, Text([], []), Written(front));
      match op {
        case Write(data) =>
          FeedAgrees(t, s.st, s.seen, x, data);
          EditInPieces(t, Text([], []), Written(front), data);
        case Read(n) =>
          ReadAgrees(t, s, n, x);
          assert Written(front) + [] == Written(front);
      }
    }
  }
}
