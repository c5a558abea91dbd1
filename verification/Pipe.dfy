/**
 The pipe buffer of kernel/stdcall/pipe.c: a one-place mailbox between a parent and its child.
 */
module Pipe {
  const NPIPEQUEUE := 0x1000

  datatype PipeState = EMPTY | EXIST | SENDING | RECEIVING

  datatype Mailbox = Mailbox(pstate: PipeState, data: seq<int>)

  /** A whole `pwrite`: refused unless the mailbox is empty. */
  function Put(m: Mailbox, bytes: seq<int>): (r: (Mailbox, bool))
    requires |bytes| <= |m.data|
  {
    if m.pstate == EMPTY then (Mailbox(EXIST, bytes + m.data[|bytes|..]), true) else (m, false)
  }

  /** A whole `pread` of `n` bytes: refused unless there is something. */
  function Take(m: Mailbox, n: nat): (r: (Mailbox, bool)) {
    if m.pstate == EXIST then (m.(pstate := EMPTY), true) else (m, false)
  }

  class PipeBuffer {
    var pstate: PipeState
    const data: array<int>

    ghost function State(): (s: Mailbox)
      reads this, data
    {
      Mailbox(pstate, data[..])
    }

    constructor ()
      ensures pstate == EMPTY && data.Length == NPIPEQUEUE && fresh(data)
    {
      pstate := EMPTY;
      data := new int[NPIPEQUEUE];
    }

    method Pwrite(buf: array<int>, n: nat) returns (ok: bool)
      requires n <= data.Length && n <= buf.Length && buf != data
      modifies this`pstate, data
      ensures (State(), ok) == Put(old(State()), buf[..n])
      ensures ok <==> old(pstate) == EMPTY
      ensures ok ==> pstate == EXIST && data[..n] == buf[..n] && data[n..] == old(data[n..])
      ensures !ok ==> pstate == old(pstate) && data[..] == old(data[..])
    {
      if pstate == EMPTY {
        pstate := SENDING;
        for i := 0 to n
          invariant pstate == SENDING
          invariant data[..] == buf[..i] + old(data[..])[i..]
        {
          data[i] := buf[i];
        }
        pstate := EXIST;
        return true;
      }
      return false;
    }

    method Pread(buf: array<int>, n: nat) returns (ok: bool)
      requires n <= data.Length && n <= buf.Length && buf != data
      modifies this`pstate, buf
      ensures (State(), ok) == Take(old(State()), n)
      ensures ok <==> old(pstate) == EXIST
      ensures pstate == if ok then EMPTY else old(pstate)
      ensures ok ==> buf[..n] == data[..n] && buf[n..] == old(buf[n..])
      ensures buf[..] == if ok then data[..n] + old(buf[..])[n..] else old(buf[..])
    {
      if pstate == EXIST {
        pstate := RECEIVING;
        for i := 0 to n
          invariant pstate == RECEIVING
          invariant buf[..] == data[..i] + old(buf[..])[i..]
        {
          buf[i] := data[i];
        }
        pstate := EMPTY;
        return true;
      }
      return false;
    }
  }

  // ---------------------------------------------------------------- runs

  datatype Call = Write(bytes: seq<int>) | Read(n: nat)

  predicate Fits(c: Call) {
    match c
    case Write(bytes) => |bytes| <= NPIPEQUEUE
    case Read(n) => n <= NPIPEQUEUE
  }

  predicate AllFit(calls: seq<Call>) {
    forall i | 0 <= i < |calls| :: Fits(calls[i])
  }

  /** The mailbox after a sequence of calls. */
  function After(m: Mailbox, calls: seq<Call>): (r: Mailbox)
    requires |m.data| == NPIPEQUEUE && AllFit(calls)
    ensures |r.data| == NPIPEQUEUE
  {
    if calls == [] then m
    else
      var before := After(m, calls[..|calls| - 1]);
      var last := calls[|calls| - 1];
      assert Fits(last);
      if last.Write? then Put(before, last.bytes).0 else Take(before, last.n).0
  }

  /** What the writes that succeeded wrote, in order. */
  ghost function Writes(m: Mailbox, calls: seq<Call>): (msgs: seq<seq<int>>)
    requires |m.data| == NPIPEQUEUE && AllFit(calls)
  {
    if calls == [] then []
    else
      var init, last := calls[..|calls| - 1], calls[|calls| - 1];
      assert Fits(last);
      if last.Write? && Put(After(m, init), last.bytes).1 then Writes(m, init) + [last.bytes] else Writes(m, init)
  }

  /** What the reads that succeeded read, in order. */
  ghost function Reads(m: Mailbox, calls: seq<Call>): (msgs: seq<seq<int>>)
    requires |m.data| == NPIPEQUEUE && AllFit(calls)
  {
    if calls == [] then []
    else
      var init, last := calls[..|calls| - 1], calls[|calls| - 1];
      assert Fits(last);
      if last.Read? && Take(After(m, init), last.n).1 then Reads(m, init) + [After(m, init).data[..last.n]] else Reads(m, init)
  }

  /**
   The calls that succeed alternate, beginning with a write, and the k-th read is a prefix of
   the k-th write unless it asks for more than was written.
   */
  lemma {:induction false} OnePlaceMailbox(m: Mailbox, calls: seq<Call>)
    requires m.pstate == EMPTY && |m.data| == NPIPEQUEUE && AllFit(calls)
    ensures |Writes(m, calls)| == |Reads(m, calls)| + if After(m, calls).pstate == EXIST then 1 else 0
    ensures var r, w := Reads(m, calls), Writes(m, calls);
      && (After(m, calls).pstate == EXIST || After(m, calls).pstate == EMPTY)
      && (After(m, calls).pstate == EXIST ==> w[|r|] <= After(m, calls).data)
      && forall k | 0 <= k < |r| :: |r[k]| <= |w[k]| ==> r[k] <= w[k]
  {
    if calls != [] {
      var init, last := calls[..|calls| - 1], calls[|calls| - 1];
      assert Fits(last);
      OnePlaceMailbox(m, init);
    }
  }

  /** Which calls succeed: a write when every write has been read, a read when the last write has not. */
  lemma CallsSucceedInTurn(m: Mailbox, calls: seq<Call>, c: Call)
    requires m.pstate == EMPTY && |m.data| == NPIPEQUEUE && AllFit(calls) && Fits(c)
    ensures c.Write? ==> (Put(After(m, calls), c.bytes).1 <==> |Writes(m, calls)| == |Reads(m, calls)|)
    ensures c.Read? ==> (Take(After(m, calls), c.n).1 <==> |Writes(m, calls)| == |Reads(m, calls)| + 1)
    ensures |Reads(m, calls)| <= |Writes(m, calls)| <= |Reads(m, calls)| + 1
  {
    OnePlaceMailbox(m, calls);
  }
}
