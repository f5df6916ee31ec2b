/** Line-ending normalisation of user/io.c: the one-bit machines of user/io.h, and the buffered reader and writer
    that must do what the machines do however the stream is cut into calls. */
module Term {
  import opened Base

  const CR: u8 := 13
  const LF: u8 := 10

  // ---- the machines ----

  /** What one input character yields, and the next state. */
  function InStep(cr: bool, ch: u8): (seq<u8>, bool) {
    if ch == CR then ([LF], true)
    else if ch == LF && cr then ([], false)
    else ([ch], false)
  }

  function OutStep(cr: bool, ch: u8): (seq<u8>, bool) {
    if ch == CR then ([CR, LF], true)
    else if ch == LF then (if cr then [] else [CR, LF], false)
    else ([ch], false)
  }

  function InState(cr: bool, s: seq<u8>): bool {
    if s == [] then cr else InStep(InState(cr, s[..|s| - 1]), s[|s| - 1]).1
  }

  function In(cr: bool, s: seq<u8>): seq<u8> {
    if s == [] then [] else In(cr, s[..|s| - 1]) + InStep(InState(cr, s[..|s| - 1]), s[|s| - 1]).0
  }

  function OutState(cr: bool, s: seq<u8>): bool {
    if s == [] then cr else OutStep(OutState(cr, s[..|s| - 1]), s[|s| - 1]).1
  }

  function Out(cr: bool, s: seq<u8>): seq<u8> {
    if s == [] then [] else Out(cr, s[..|s| - 1]) + OutStep(OutState(cr, s[..|s| - 1]), s[|s| - 1]).0
  }

  lemma InNext(cr: bool, s: seq<u8>, ch: u8)
    ensures InState(cr, s + [ch]) == InStep(InState(cr, s), ch).1
    ensures In(cr, s + [ch]) == In(cr, s) + InStep(InState(cr, s), ch).0
  {
    assert (s + [ch])[..|s|] == s;
  }

  lemma OutNext(cr: bool, s: seq<u8>, ch: u8)
    ensures OutState(cr, s + [ch]) == OutStep(OutState(cr, s), ch).1
    ensures Out(cr, s + [ch]) == Out(cr, s) + OutStep(OutState(cr, s), ch).0
  {
    assert (s + [ch])[..|s|] == s;
  }

  lemma Nothing(cr: bool)
    ensures In(cr, []) == [] && InState(cr, []) == cr && Out(cr, []) == [] && OutState(cr, []) == cr
  {
  }

  /** Cutting the stream does not matter. */
  lemma {:induction false} InSplit(cr: bool, a: seq<u8>, b: seq<u8>)
    ensures InState(cr, a + b) == InState(InState(cr, a), b)
    ensures In(cr, a + b) == In(cr, a) + In(InState(cr, a), b)
  {
    if b == [] {
      assert a + b == a;
    } else {
      var n := |b| - 1;
      assert a + b == (a + b[..n]) + [b[n]] && b == b[..n] + [b[n]];
      InSplit(cr, a, b[..n]);
      InNext(cr, a + b[..n], b[n]);
      InNext(InState(cr, a), b[..n], b[n]);
    }
  }

  lemma {:induction false} OutSplit(cr: bool, a: seq<u8>, b: seq<u8>)
    ensures OutState(cr, a + b) == OutState(OutState(cr, a), b)
    ensures Out(cr, a + b) == Out(cr, a) + Out(OutState(cr, a), b)
  {
    if b == [] {
      assert a + b == a;
    } else {
      var n := |b| - 1;
      assert a + b == (a + b[..n]) + [b[n]] && b == b[..n] + [b[n]];
      OutSplit(cr, a, b[..n]);
      OutNext(cr, a + b[..n], b[n]);
      OutNext(OutState(cr, a), b[..n], b[n]);
    }
  }

  lemma OutOfCrLf(cr: bool)
    ensures Out(cr, [CR, LF]) == [CR, LF] && !OutState(cr, [CR, LF])
    ensures In(cr, [CR, LF]) == [LF] && !InState(cr, [CR, LF])
  {
    assert [CR, LF] == [CR] + [LF] && [CR] == [] + [CR];
    OutNext(cr, [], CR);
    OutNext(cr, [CR], LF);
    InNext(cr, [], CR);
    InNext(cr, [CR], LF);
  }

  lemma OneChar(cr: bool, ch: u8)
    ensures Out(cr, [ch]) == OutStep(cr, ch).0 && OutState(cr, [ch]) == OutStep(cr, ch).1
    ensures In(cr, [ch]) == InStep(cr, ch).0 && InState(cr, [ch]) == InStep(cr, ch).1
  {
    assert [] + [ch] == [ch];
    OutNext(cr, [], ch);
    InNext(cr, [], ch);
  }

  /** Normalising what is already normal changes nothing. */
  lemma {:induction false} OutIdempotent(cr: bool, s: seq<u8>)
    ensures Out(false, Out(cr, s)) == Out(cr, s) && !OutState(false, Out(cr, s))
  {
    if s != [] {
      var n := |s| - 1;
      var o, x := Out(cr, s[..n]), OutStep(OutState(cr, s[..n]), s[n]).0;
      OutIdempotent(cr, s[..n]);
      OutSplit(false, o, x);
      OutOfCrLf(false);
      OneChar(false, s[n]);
    }
  }

  /** A reader cannot tell whether a stream was normalised on its way out. */
  lemma {:induction false} InOfOut(cr: bool, s: seq<u8>)
    ensures In(false, Out(cr, s)) == In(cr, s) && !InState(false, Out(cr, s))
    ensures InState(cr, s) == OutState(cr, s)
  {
    if s != [] {
      var n := |s| - 1;
      var o, x := Out(cr, s[..n]), OutStep(OutState(cr, s[..n]), s[n]).0;
      InOfOut(cr, s[..n]);
      InSplit(false, o, x);
      OutOfCrLf(false);
      OneChar(false, s[n]);
    }
  }

  // ---- what the machines make of a text ----

  /** A text is bytes and line ends, and a line end comes as CR LF, as CR alone or as LF alone. */
  datatype Token = Byte(b: u8) | LineEnd

  function Tokens(s: seq<u8>): seq<Token> {
    if s == [] then []
    else if s[0] == CR then [LineEnd] + Tokens(s[if |s| > 1 && s[1] == LF then 2 else 1..])
    else if s[0] == LF then [LineEnd] + Tokens(s[1..])
    else [Byte(s[0])] + Tokens(s[1..])
  }

  /** The text written with one kind of line end. */
  function Written(ts: seq<Token>, end: seq<u8>): seq<u8> {
    if ts == [] then [] else (if ts[0].LineEnd? then end else [ts[0].b]) + Written(ts[1..], end)
  }

  /** The stream without its first character. */
  lemma OutFirst(cr: bool, s: seq<u8>)
    requires s != []
    ensures Out(cr, s) == OutStep(cr, s[0]).0 + Out(OutStep(cr, s[0]).1, s[1..])
    ensures In(cr, s) == InStep(cr, s[0]).0 + In(InStep(cr, s[0]).1, s[1..])
  {
    assert [s[0]] + s[1..] == s;
    OutSplit(cr, [s[0]], s[1..]);
    InSplit(cr, [s[0]], s[1..]);
    OneChar(cr, s[0]);
  }

  /** After a carriage return a line feed adds nothing, and everything else counts as from the start. */
  lemma AfterCr(s: seq<u8>)
    ensures Out(true, s) == Out(false, if s != [] && s[0] == LF then s[1..] else s)
    ensures In(true, s) == In(false, if s != [] && s[0] == LF then s[1..] else s)
  {
    if s != [] {
      OutFirst(true, s);
      OutFirst(false, s);
    }
  }

  /** The output machine writes every line end of the text as CR LF, and the input machine as LF; all other bytes are
      kept, in order. */
  lemma {:induction false} MachinesMean(s: seq<u8>)
    ensures Out(false, s) == Written(Tokens(s), [CR, LF])
    ensures In(false, s) == Written(Tokens(s), [LF])
    decreases |s|
  {
    if s == [] {
      Nothing(false);
    } else {
      hide Out, In;
      OutFirst(false, s);
      var rest := s[1..];
      if s[0] == CR && rest != [] && rest[0] == LF {
        AfterCr(rest);
        assert s[2..] == rest[1..];
        MachinesMean(s[2..]);
        TokenFirst(LineEnd, Tokens(s[2..]));
      } else {
        if s[0] == CR {
          AfterCr(rest);
        }
        MachinesMean(rest);
        TokenFirst(if s[0] == CR || s[0] == LF then LineEnd else Byte(s[0]), Tokens(rest));
      }
    }
  }

  lemma TokenFirst(t: Token, ts: seq<Token>)
    ensures forall end: seq<u8> :: Written([t] + ts, end) == (if t.LineEnd? then end else [t.b]) + Written(ts, end)
  {
    assert ([t] + ts)[1..] == ts;
  }

  /** Every token of a text but a line end is some other byte. */
  lemma {:induction false} TokenBytes(s: seq<u8>, i: nat)
    requires i < |Tokens(s)| && Tokens(s)[i].Byte?
    ensures Tokens(s)[i].b != CR && Tokens(s)[i].b != LF
    decreases |s|
  {
    if i > 0 {
      TokenBytes(s[if s[0] == CR && |s| > 1 && s[1] == LF then 2 else 1..], i - 1);
    }
  }

  /** A carriage return is followed by a line feed, a line feed comes after a carriage return. */
  ghost predicate PairAt(o: seq<u8>, i: nat)
    requires i < |o|
  {
    (o[i] == CR ==> i + 1 < |o| && o[i + 1] == LF) && (o[i] == LF ==> i > 0 && o[i - 1] == CR)
  }

  ghost predicate Paired(o: seq<u8>) {
    forall i: nat :: i < |o| ==> PairAt(o, i)
  }

  lemma PairedFirst(x: seq<u8>, o: seq<u8>)
    requires Paired(o) && (x == [CR, LF] || (|x| == 1 && x[0] != CR && x[0] != LF))
    ensures Paired(x + o)
  {
    var all := x + o;
    forall i: nat | i < |all| ensures PairAt(all, i) {
      if i >= |x| {
        assert PairAt(o, i - |x|);
      }
    }
  }

  lemma {:induction false} WrittenPaired(ts: seq<Token>)
    requires forall i :: 0 <= i < |ts| && ts[i].Byte? ==> ts[i].b != CR && ts[i].b != LF
    ensures Paired(Written(ts, [CR, LF])) && CR !in Written(ts, [LF])
  {
    if ts != [] {
      WrittenPaired(ts[1..]);
      PairedFirst(if ts[0].LineEnd? then [CR, LF] else [ts[0].b], Written(ts[1..], [CR, LF]));
      hide Paired;
    }
  }

  /** On the way out every line feed has its carriage return before it and every carriage return its line feed behind
      it; what is read has no carriage return. */
  lemma LineEndsNormal(s: seq<u8>)
    ensures Paired(Out(false, s)) && CR !in In(false, s)
  {
    MachinesMean(s);
    forall i | 0 <= i < |Tokens(s)| && Tokens(s)[i].Byte? ensures Tokens(s)[i].b != CR && Tokens(s)[i].b != LF {
      TokenBytes(s, i);
    }
    WrittenPaired(Tokens(s));
  }

  // ---- the raw device ----

  class Raw {
    /** What will still come in, and what has gone out. */
    var input: seq<u8>
    var sent: seq<u8>
    /** A healthy device takes everything it is given and has something to read as long as input is left. */
    const healthy: bool

    /** ioread: some of what comes next, at least one byte, or an error. */
    method Read(buf: array<u8>, len: nat) returns (cnt: int)
      requires 0 < len <= buf.Length
      modifies this`input, buf
      ensures cnt == -EIO || 1 <= cnt <= len
      ensures cnt < 0 ==> input == old(input) && buf[..] == old(buf[..]) && !(healthy && input != [])
      ensures cnt > 0 ==> cnt <= |old(input)| && old(input) == buf[..cnt] + input
      ensures forall k :: 0 <= k < buf.Length && k >= len ==> buf[k] == old(buf[k])
    {
      var k: nat :| k <= len && k <= |input| && (healthy && input != [] ==> k > 0);
      if k == 0 {
        return -EIO;
      }
      forall i | 0 <= i < k {
        buf[i] := input[i];
      }
      assert buf[..k] == input[..k];
      input := input[k..];
      return k;
    }

    /** iowrite: everything, or nothing, or an error after some of it. */
    method Write(data: seq<u8>) returns (cnt: int)
      requires data != []
      modifies this`sent
      ensures cnt == |data| || ((cnt == 0 || cnt == -EIO) && !healthy)
      ensures cnt == |data| ==> sent == old(sent) + data
      ensures cnt <= 0 ==> Beginning(old(sent), sent, data)
    {
      var k: nat :| k <= |data| && (healthy ==> k == |data|);
      sent := sent + data[..k];
      if k == |data| {
        assert data[..k] == data;
        return k;
      }
      if k == 0 {
        return 0;
      }
      return -EIO;
    }
  }

  /** One more byte at the write pointer. */
  method Store(buf: array<u8>, wp: nat, x: u8)
    requires wp < buf.Length
    modifies buf
    ensures buf[..wp + 1] == old(buf[..wp]) + [x]
    ensures forall k :: wp < k < buf.Length ==> buf[k] == old(buf[k])
  {
    buf[wp] := x;
  }

  class IoTerm {
    const raw: Raw
    var crIn: bool
    var crOut: bool

    constructor (raw: Raw)
      ensures this.raw == raw && !crIn && !crOut
    {
      this.raw := raw;
      crIn, crOut := false, false;
    }

    /** One character of the scan of ioterm_read. */
    method CompactOne(buf: array<u8>, wp: nat, rp: nat) returns (wp': nat)
      requires wp <= rp < buf.Length
      modifies this`crIn, buf
      ensures wp' <= rp + 1 && buf[..wp'] == old(buf[..wp]) + InStep(old(crIn), old(buf[rp])).0
      ensures crIn == InStep(old(crIn), old(buf[rp])).1
      ensures forall k :: rp < k < buf.Length ==> buf[k] == old(buf[k])
    {
      var ch := buf[rp];
      wp' := wp;
      if crIn {
        if ch == CR {
          Store(buf, wp, LF);
          wp' := wp + 1;
        } else if ch == LF {
          crIn := false;
        } else {
          crIn := false;
          Store(buf, wp, ch);
          wp' := wp + 1;
        }
      } else {
        if ch == CR {
          crIn := true;
          Store(buf, wp, LF);
          wp' := wp + 1;
        } else {
          Store(buf, wp, ch);
          wp' := wp + 1;
        }
      }
    }

    /** The in-place scan of ioterm_read: the first cnt bytes of buf are normalised and moved together. */
    method Compact(buf: array<u8>, cnt: nat) returns (wp: nat)
      requires cnt <= buf.Length
      modifies this`crIn, buf
      ensures wp <= cnt && buf[..wp] == In(old(crIn), old(buf[..cnt])) && crIn == InState(old(crIn), old(buf[..cnt]))
      ensures forall k :: cnt <= k < buf.Length ==> buf[k] == old(buf[k])
    {
      hide In, InState, InStep;
      ghost var chunk := buf[..cnt];
      var rp := 0;
      wp := 0;
      assert chunk[..0] == [];
      Nothing(crIn);
      while rp < cnt
        invariant 0 <= wp <= rp <= cnt
        invariant buf[..wp] == In(old(crIn), chunk[..rp]) && crIn == InState(old(crIn), chunk[..rp])
        invariant forall k :: rp <= k < buf.Length ==> buf[k] == old(buf[k])
      {
        assert chunk[..rp + 1] == chunk[..rp] + [buf[rp]];
        InNext(old(crIn), chunk[..rp], buf[rp]);
        wp := CompactOne(buf, wp, rp);
        rp := rp + 1;
      }
      assert chunk[..cnt] == chunk;
    }

    /** ioterm_read: the caller gets exactly what the machine makes of the bytes taken from the device, and at
        least one. The loop goes round twice at most. */
    method Read(buf: array<u8>, len: nat) returns (n: int, ghost taken: seq<u8>)
      requires 0 < len <= buf.Length
      modifies this`crIn, raw`input, buf
      ensures old(raw.input) == taken + raw.input
      ensures crIn == InState(old(crIn), taken)
      ensures n == -EIO || 0 < n <= len
      ensures n > 0 ==> buf[..n] == In(old(crIn), taken)
      ensures n < 0 ==> In(old(crIn), taken) == [] && !(raw.healthy && raw.input != [])
    {
      hide In, InState;
      taken := [];
      var wp := 0;
      Nothing(crIn);
      while wp == 0
        invariant 0 <= wp <= len && old(raw.input) == taken + raw.input
        invariant crIn == InState(old(crIn), taken) && buf[..wp] == In(old(crIn), taken)
        invariant wp == 0 && taken != [] ==> !crIn
        decreases if wp > 0 then 0 else if crIn then 2 else 1
      {
        ghost var cr, before := crIn, taken;
        var cnt := raw.Read(buf, len);
        if cnt < 0 {
          return cnt, taken;
        }
        ghost var chunk := buf[..cnt];
        wp := Compact(buf, cnt);
        taken := taken + chunk;
        InSplit(old(crIn), before, chunk);
        if wp == 0 {
          NothingLeft(cr, chunk);
        }
      }
      n := wp;
    }

    /** ioputc */
    method Putc(c: u8) returns (rc: int)
      modifies raw`sent
      ensures rc == c as int || (rc == -EIO && !raw.healthy)
      ensures rc >= 0 ==> raw.sent == old(raw.sent) + [c]
      ensures rc < 0 ==> Beginning(old(raw.sent), raw.sent, [c])
    {
      var n := raw.Write([c]);
      if n < 0 {
        return n;
      }
      if n == 0 {
        return -EIO;
      }
      return c as int;
    }

    /** Send the pending bytes buf[wp..to], then the character c that the buffer lacks. A result of one means
        both are out, zero that the device took nothing, less an error. */
    method SendAnd(buf: seq<u8>, wp: nat, to: nat, c: u8) returns (rc: int)
      requires wp <= to <= |buf|
      modifies raw`sent
      ensures rc == 1 || ((rc == 0 || rc == -EIO) && !raw.healthy)
      ensures rc == 0 ==> wp < to
      ensures rc == 1 ==> raw.sent == old(raw.sent) + (buf[wp..to] + [c])
      ensures rc <= 0 ==> Beginning(old(raw.sent), raw.sent, buf[wp..to] + [c])
    {
      if wp != to {
        var cnt := raw.Write(buf[wp..to]);
        if cnt <= 0 {
          Longer(old(raw.sent), raw.sent, buf[wp..to], [c]);
          return cnt;
        }
      }
      ghost var mid := raw.sent;
      assert mid == old(raw.sent) + buf[wp..to];
      var put := Putc(c);
      if put < 0 {
        Later(old(raw.sent), raw.sent, buf[wp..to], [c]);
        return put;
      }
      assert raw.sent == old(raw.sent) + (buf[wp..to] + [c]);
      return 1;
    }

    /** A carriage return that no line feed follows in the buffer. */
    method LoneCr(buf: seq<u8>, wp: nat, rp: nat, ghost cr0: bool, ghost sent0: seq<u8>) returns (rc: int)
      requires Pending(buf, cr0, sent0, raw.sent, wp, rp, crOut) && rp < |buf| && buf[rp] == CR
      modifies this`crOut, raw`sent
      ensures rc == 1 ==> crOut && Pending(buf, cr0, sent0, raw.sent, rp + 1, rp + 1, crOut)
      ensures rc != 1 ==> (rc == 0 || rc == -EIO) && !raw.healthy && Beginning(sent0, raw.sent, Out(cr0, buf))
    {
      hide Out, OutState;
      ghost var sent1 := raw.sent;
      ghost var s := buf[wp..rp + 1] + [LF];
      Take1(cr0, buf, rp);
      assert s == buf[wp..rp] + [CR, LF];
      Glue(sent1, buf[wp..rp], [CR, LF], s);
      Glue(sent0, Out(cr0, buf[..rp]), [CR, LF], Out(cr0, buf[..rp + 1]));
      rc := SendAnd(buf, wp, rp + 1, LF);
      if rc <= 0 {
        Halt(buf, cr0, sent0, sent1, s, raw.sent, rp + 1);
        return;
      }
      crOut := true;
      assert buf[rp + 1..rp + 1] == [];
    }

    /** A line feed that no carriage return precedes. */
    method LoneLf(buf: seq<u8>, wp: nat, rp: nat, ghost cr0: bool, ghost sent0: seq<u8>) returns (rc: int)
      requires Pending(buf, cr0, sent0, raw.sent, wp, rp, crOut) && rp < |buf| && buf[rp] == LF && !crOut
      modifies this`crOut, raw`sent
      ensures rc == 1 ==> !crOut && Pending(buf, cr0, sent0, raw.sent, rp, rp + 1, crOut)
      ensures rc != 1 ==> (rc == 0 || rc == -EIO) && !raw.healthy && Beginning(sent0, raw.sent, Out(cr0, buf))
    {
      hide Out, OutState;
      ghost var sent1 := raw.sent;
      ghost var s := buf[wp..rp] + [CR];
      Take1(cr0, buf, rp);
      Glue(sent1, buf[wp..rp], [CR, LF], buf[wp..rp] + [CR, LF]);
      Glue(sent0, Out(cr0, buf[..rp]), [CR, LF], Out(cr0, buf[..rp + 1]));
      assert buf[wp..rp] + [CR, LF] == s + [LF];
      Glue(sent1, s, [LF], s + [LF]);
      rc := SendAnd(buf, wp, rp, CR);
      if rc <= 0 {
        Halt(buf, cr0, sent0, sent1, s, raw.sent, rp + 1);
        return;
      }
      crOut := false;
      assert buf[rp..rp + 1] == [LF];
    }

    /** ioterm_write: the device gets exactly what the machine makes of the buffer. When it stops it has got a
        beginning of that, and the result is smaller. The result counts the bytes of the buffer that were
        written, so a line feed that only completes an earlier carriage return is not counted. */
    method Write(buf: seq<u8>) returns (acc: int)
      modifies this`crOut, raw`sent
      ensures
        if acc == Counted(old(crOut), buf) then Sent(buf, old(crOut), old(raw.sent), raw.sent, crOut)
        else
          && (acc == -EIO || 0 <= acc < Counted(old(crOut), buf)) && !raw.healthy
          && Beginning(old(raw.sent), raw.sent, Out(old(crOut), buf))
    {
      hide Out, OutState, Pending, Beginning;
      ghost var cr0, sent0 := crOut, raw.sent;
      PendStart(buf, cr0, sent0);
      acc := 0;
      var wp, rp := 0, 0;
      while rp < |buf|
        invariant 0 <= wp <= rp <= |buf| && 0 <= acc == wp - Skipped(cr0, buf, rp)
        invariant Pending(buf, cr0, sent0, raw.sent, wp, rp, crOut)
        invariant crOut && 0 < rp < |buf| ==> buf[rp] != LF
        invariant rp == 0 ==> crOut == cr0
        decreases |buf| - rp
      {
        var ch := buf[rp];
        if ch == CR && rp + 1 < |buf| && buf[rp + 1] == LF {
          PendCrLf(buf, cr0, sent0, raw.sent, wp, rp, crOut);
          crOut := false;
          rp := rp + 2;
        } else if ch == CR {
          var rc := LoneCr(buf, wp, rp, cr0, sent0);
          if rc <= 0 {
            return if rc < 0 then rc else acc;
          }
          rp := rp + 1;
          acc := acc + (rp - wp);
          wp := rp;
        } else if ch == LF && crOut {
          PendSkip(buf, cr0, sent0, raw.sent, wp, rp);
          crOut := false;
          rp := rp + 1;
          wp := wp + 1;
        } else if ch == LF {
          var rc := LoneLf(buf, wp, rp, cr0, sent0);
          if rc <= 0 {
            return if rc < 0 then rc else acc;
          }
          acc := acc + (rp - wp);
          wp := rp;
          rp := rp + 1;
        } else {
          PendChar(buf, cr0, sent0, raw.sent, wp, rp, crOut);
          crOut := false;
          rp := rp + 1;
        }
      }
      PendEnd(buf, cr0, sent0, raw.sent, wp, crOut);
      if rp != wp {
        var cnt := raw.Write(buf[wp..rp]);
        if cnt <= 0 {
          return if cnt < 0 then cnt else acc;
        }
        acc := acc + cnt;
      }
    }
  }

  /** The bytes wp to rp of the buffer are still to be sent; with them the device has what the machine makes of
      the first rp bytes. */
  ghost predicate Pending(buf: seq<u8>, cr0: bool, sent0: seq<u8>, sent: seq<u8>, wp: nat, rp: nat, cr: bool) {
    && wp <= rp <= |buf| && sent0 <= sent && sent + buf[wp..rp] == sent0 + Out(cr0, buf[..rp])
    && cr == OutState(cr0, buf[..rp]) && (cr ==> wp == rp)
  }

  lemma PendStart(buf: seq<u8>, cr0: bool, sent0: seq<u8>)
    ensures Pending(buf, cr0, sent0, sent0, 0, 0, cr0)
  {
    Nothing(cr0);
    assert buf[..0] == [] && buf[0..0] == [];
  }

  lemma PendChar(buf: seq<u8>, cr0: bool, sent0: seq<u8>, sent: seq<u8>, wp: nat, rp: nat, cr: bool)
    requires Pending(buf, cr0, sent0, sent, wp, rp, cr) && rp < |buf| && buf[rp] != CR && buf[rp] != LF
    ensures Pending(buf, cr0, sent0, sent, wp, rp + 1, false)
  {
    hide Out, OutState;
    Take1(cr0, buf, rp);
    assert buf[wp..rp + 1] == buf[wp..rp] + [buf[rp]];
    Glue(sent, buf[wp..rp], [buf[rp]], buf[wp..rp + 1]);
    Glue(sent0, Out(cr0, buf[..rp]), [buf[rp]], Out(cr0, buf[..rp + 1]));
  }

  lemma PendCrLf(buf: seq<u8>, cr0: bool, sent0: seq<u8>, sent: seq<u8>, wp: nat, rp: nat, cr: bool)
    requires Pending(buf, cr0, sent0, sent, wp, rp, cr) && rp + 1 < |buf| && buf[rp] == CR && buf[rp + 1] == LF
    ensures Pending(buf, cr0, sent0, sent, wp, rp + 2, false)
  {
    hide Out, OutState;
    Take1(cr0, buf, rp);
    Take1(cr0, buf, rp + 1);
    assert buf[wp..rp + 2] == buf[wp..rp] + [CR, LF];
    Glue(sent, buf[wp..rp], [CR, LF], buf[wp..rp + 2]);
    Glue(sent0, Out(cr0, buf[..rp]), [CR, LF], Out(cr0, buf[..rp + 2]));
  }

  lemma PendSkip(buf: seq<u8>, cr0: bool, sent0: seq<u8>, sent: seq<u8>, wp: nat, rp: nat)
    requires Pending(buf, cr0, sent0, sent, wp, rp, true) && rp < |buf| && buf[rp] == LF
    ensures wp == rp && Pending(buf, cr0, sent0, sent, wp + 1, rp + 1, false)
  {
    hide Out, OutState;
    Take1(cr0, buf, rp);
    assert buf[wp..rp] == [] && buf[wp + 1..rp + 1] == [];
  }

  lemma PendEnd(buf: seq<u8>, cr0: bool, sent0: seq<u8>, sent: seq<u8>, wp: nat, cr: bool)
    requires Pending(buf, cr0, sent0, sent, wp, |buf|, cr)
    ensures sent + buf[wp..|buf|] == sent0 + Out(cr0, buf) && cr == OutState(cr0, buf) && sent0 <= sent && wp <= |buf|
    ensures wp == |buf| ==> sent == sent0 + Out(cr0, buf)
    ensures forall sent' :: Beginning(sent, sent', buf[wp..|buf|]) ==> Beginning(sent0, sent', Out(cr0, buf))
  {
    hide Out, OutState;
    assert buf[..|buf|] == buf;
    forall sent' | Beginning(sent, sent', buf[wp..|buf|]) ensures Beginning(sent0, sent', Out(cr0, buf)) {
      Halt(buf, cr0, sent0, sent, buf[wp..|buf|], sent', |buf|);
    }
  }

  lemma Glue(a: seq<u8>, b: seq<u8>, c: seq<u8>, d: seq<u8>)
    requires d == b + c
    ensures a + b + c == a + d
  {
  }

  /** A device that stops while s is being sent has got a beginning of the whole normalised buffer. */
  lemma Halt(buf: seq<u8>, cr: bool, sent0: seq<u8>, sent1: seq<u8>, s: seq<u8>, sent: seq<u8>, rp: nat)
    requires rp <= |buf| && sent0 <= sent1 && sent1 + s <= sent0 + Out(cr, buf[..rp]) && Beginning(sent1, sent, s)
    ensures Beginning(sent0, sent, Out(cr, buf))
  {
    hide Out, OutState;
    var k: nat :| k <= |s| && sent == sent1 + s[..k];
    assert buf[..rp] + buf[rp..] == buf;
    OutSplit(cr, buf[..rp], buf[rp..]);
    var o := Out(cr, buf);
    var n := |sent| - |sent0|;
    assert sent1 + s <= sent0 + o;
    assert sent == (sent0 + o)[..|sent0| + n];
    assert sent == sent0 + o[..n];
  }

  /** The device got what the machine makes of the buffer. */
  ghost predicate Sent(buf: seq<u8>, cr: bool, sent: seq<u8>, sent': seq<u8>, cr': bool) {
    sent' == sent + Out(cr, buf) && cr' == OutState(cr, buf)
  }

  /** The device has got a beginning of s. */
  ghost predicate Beginning(sent: seq<u8>, sent': seq<u8>, s: seq<u8>) {
    exists k: nat :: k <= |s| && sent' == sent + s[..k]
  }

  lemma Longer(sent: seq<u8>, sent': seq<u8>, s: seq<u8>, t: seq<u8>)
    requires Beginning(sent, sent', s)
    ensures Beginning(sent, sent', s + t)
  {
    var k: nat :| k <= |s| && sent' == sent + s[..k];
    assert (s + t)[..k] == s[..k];
  }

  lemma Later(sent: seq<u8>, sent': seq<u8>, s: seq<u8>, t: seq<u8>)
    requires Beginning(sent + s, sent', t)
    ensures Beginning(sent, sent', s + t)
  {
    var k: nat :| k <= |t| && sent' == sent + s + t[..k];
    assert (s + t)[..|s| + k] == s + t[..k];
    assert sent + s + t[..k] == sent + (s + t[..k]);
  }

  /** The result of a write that went through. */
  function Counted(cr: bool, buf: seq<u8>): nat {
    |buf| - Skipped(cr, buf, |buf|)
  }

  /** The line feed that is not counted. */
  function Skipped(cr: bool, buf: seq<u8>, rp: nat): nat
    requires rp <= |buf|
  {
    if cr && rp > 0 && buf[0] == LF then 1 else 0
  }

  /** One more character of the buffer. */
  lemma Take1(cr: bool, buf: seq<u8>, rp: nat)
    requires rp < |buf|
    ensures OutState(cr, buf[..rp + 1]) == OutStep(OutState(cr, buf[..rp]), buf[rp]).1
    ensures Out(cr, buf[..rp + 1]) == Out(cr, buf[..rp]) + OutStep(OutState(cr, buf[..rp]), buf[rp]).0
  {
    assert buf[..rp + 1] == buf[..rp] + [buf[rp]];
    OutNext(cr, buf[..rp], buf[rp]);
  }

  /** Only a line feed after a carriage return disappears, and it clears the state. */
  lemma NothingLeft(cr: bool, s: seq<u8>)
    requires s != [] && In(cr, s) == []
    ensures cr && !InState(cr, s)
  {
  }

  // ---- any way of cutting the stream ----

  function Concat(bufs: seq<seq<u8>>): seq<u8> {
    if bufs == [] then [] else Concat(bufs[..|bufs| - 1]) + bufs[|bufs| - 1]
  }

  /** A run of complete writes, each starting where the one before left off. */
  ghost predicate WriteRun(bufs: seq<seq<u8>>, crs: seq<bool>, sents: seq<seq<u8>>) {
    && |crs| == |sents| == |bufs| + 1
    && forall i: nat :: i < |bufs| ==> Sent(bufs[i], crs[i], sents[i], sents[i + 1], crs[i + 1])
  }

  /** The device gets the normalised stream, however it was cut. */
  lemma {:induction false} WritesDontCut(bufs: seq<seq<u8>>, crs: seq<bool>, sents: seq<seq<u8>>)
    requires WriteRun(bufs, crs, sents)
    ensures sents[|bufs|] == sents[0] + Out(crs[0], Concat(bufs)) && crs[|bufs|] == OutState(crs[0], Concat(bufs))
  {
    hide Out, OutState;
    if bufs == [] {
      Nothing(crs[0]);
    } else {
      var n := |bufs| - 1;
      assert Sent(bufs[n], crs[n], sents[n], sents[n + 1], crs[n + 1]);
      WritesDontCut(bufs[..n], crs[..n + 1], sents[..n + 1]);
      OutSplit(crs[0], Concat(bufs[..n]), bufs[n]);
    }
  }

  lemma ConcatSnoc(bufs: seq<seq<u8>>, b: seq<u8>)
    ensures Concat(bufs + [b]) == Concat(bufs) + b
  {
    assert (bufs + [b])[..|bufs|] == bufs;
  }

  /** Reading again and again: the pieces together are what the machine makes of all the bytes taken, and as long as
      a healthy device has input no read comes back empty. */
  method ReadSome(t: IoTerm, sizes: seq<nat>) returns (pieces: seq<seq<u8>>, ghost taken: seq<u8>)
    modifies t`crIn, t.raw`input
    ensures old(t.raw.input) == taken + t.raw.input
    ensures Concat(pieces) == In(old(t.crIn), taken) && t.crIn == InState(old(t.crIn), taken)
    ensures |pieces| == |sizes| && forall i :: 0 <= i < |sizes| ==> |pieces[i]| <= sizes[i]
    ensures t.raw.healthy && t.raw.input != [] ==> forall i :: 0 <= i < |sizes| && sizes[i] > 0 ==> pieces[i] != []
  {
    hide In, InState, Concat;
    pieces, taken := [], [];
    Nothing(t.crIn);
    assert Concat([]) == [] by {
      ConcatEmpty();
    }
    for i := 0 to |sizes|
      invariant old(t.raw.input) == taken + t.raw.input
      invariant Concat(pieces) == In(old(t.crIn), taken) && t.crIn == InState(old(t.crIn), taken)
      invariant |pieces| == i && forall j :: 0 <= j < i ==> |pieces[j]| <= sizes[j]
      invariant t.raw.healthy && t.raw.input != [] ==> forall j :: 0 <= j < i && sizes[j] > 0 ==> pieces[j] != []
    {
      var piece := [];
      if sizes[i] > 0 {
        var buf := new u8[sizes[i]](j => 0);
        ghost var before := taken;
        var n;
        ghost var more;
        n, more := t.Read(buf, sizes[i]);
        InSplit(old(t.crIn), before, more);
        taken := taken + more;
        if n > 0 {
          piece := buf[..n];
        }
      }
      ConcatSnoc(pieces, piece);
      pieces := pieces + [piece];
    }
  }

  lemma ConcatEmpty()
    ensures Concat([]) == []
  {
  }
}
