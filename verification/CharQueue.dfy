/**
 The character ring of kernel/util.c and the framing of NUL-terminated strings in it.
 Characters are integers; 0 is NUL.
 */
module CharQueue {
  import opened Rings

  const QUEUE_SIZE := 1600

  /** Where the first NUL of `s` is, or its length. */
  function NulAt(s: seq<int>): (k: nat)
    ensures k <= |s| && 0 !in s[..k] && (k < |s| ==> s[k] == 0)
  {
    if s == [] || s[0] == 0 then 0 else 1 + NulAt(s[1..])
  }

  function SkipNuls(s: seq<int>): (r: seq<int>)
    ensures r == [] || r[0] != 0
    ensures |r| <= |s| && r == s[|s| - |r|..] && forall i | 0 <= i < |s| - |r| :: s[i] == 0
  {
    if s != [] && s[0] == 0 then SkipNuls(s[1..]) else s
  }

  /** The characters up to the first NUL, or all there are: success, the string with its NUL, and the rest. */
  function FirstString(t: seq<int>): (r: (bool, seq<int>, seq<int>)) {
    var k := NulAt(t);
    if k < |t| then (true, t[..k + 1], t[k + 1..]) else (false, t, [])
  }

  /** What `dequeue_str` makes of the queued characters. */
  function Unframe(s: seq<int>): (r: (bool, seq<int>, seq<int>)) {
    FirstString(SkipNuls(s))
  }

  predicate AllNul(s: seq<int>) {
    forall i | 0 <= i < |s| :: s[i] == 0
  }

  /**
   The loop that skips NULs looks at `data[head]` even when nothing is queued. It never ends
   when only NULs are queued and a NUL also lies in the slot behind them.
   */
  predicate SkipsForever(data: seq<int>, head: int, num: int)
    requires |data| == QUEUE_SIZE && 0 <= head < QUEUE_SIZE && 0 <= num <= QUEUE_SIZE
  {
    AllNul(Ring(data, head, num)) && data[(head + num) % QUEUE_SIZE] == 0
  }

  /** One turn of that loop: `dequeue_char`, whether or not it succeeds. */
  function Skip(head: int, num: int): (r: (int, int)) {
    if num > 0 then ((head + 1) % QUEUE_SIZE, num - 1) else (head, num)
  }

  /** In that case the loop's guard holds, and a turn of the loop leaves that case unchanged. */
  lemma SkippingNeverEnds(data: seq<int>, head: int, num: int)
    requires |data| == QUEUE_SIZE && 0 <= head < QUEUE_SIZE && 0 <= num <= QUEUE_SIZE
    requires SkipsForever(data, head, num)
    ensures data[head] == 0
    ensures var (h, n) := Skip(head, num); 0 <= h < QUEUE_SIZE && 0 <= n <= QUEUE_SIZE && SkipsForever(data, h, n)
  {
    if num > 0 {
      RingHead(data, head, num);
      var (h, n) := Skip(head, num);
      assert Ring(data, head, num)[0] == 0;
      assert Ring(data, h, n) == Ring(data, head, num)[1..];
    }
  }

  /** The head slot holds the first queued character; the rest are the ring one slot on. */
  lemma RingHead(data: seq<int>, head: int, num: int)
    requires |data| == QUEUE_SIZE && 0 <= head < QUEUE_SIZE && 0 < num <= QUEUE_SIZE
    ensures Ring(data, head, num) == [data[head]] + Ring(data, (head + 1) % QUEUE_SIZE, num - 1)
  {
  }

  lemma SkipOneNul(s: seq<int>)
    ensures SkipNuls([0] + s) == SkipNuls(s)
  {
    assert ([0] + s)[1..] == s;
  }

  lemma AppendOne(a: seq<int>, s: seq<int>, i: nat)
    requires i < |s|
    ensures a + s[..i] + [s[i]] == a + s[..i + 1] && |a + s[..i]| == |a| + i
  {
  }

  lemma BeforeNul(s: seq<int>)
    ensures forall j | 0 <= j < NulAt(s) :: s[j] != 0
  {
    assert forall j | 0 <= j < NulAt(s) :: s[j] in s[..NulAt(s)];
  }

  class QueueChar {
    const data: array<int>
    var head: int
    var num: int

    ghost predicate Valid()
      reads this
    {
      data.Length == QUEUE_SIZE && 0 <= head < QUEUE_SIZE && 0 <= num <= QUEUE_SIZE
    }

    ghost function Contents(): (s: seq<int>)
      reads this, data
      requires Valid()
      ensures |s| == num
    {
      Ring(data[..], head, num)
    }

    /** `flush_queue_char` on a new queue. */
    constructor ()
      ensures Valid() && Contents() == [] && fresh(data)
    {
      data := new int[QUEUE_SIZE](_ => 0);
      head := 0;
      num := 0;
    }

    method EnqueueChar(c: int) returns (ok: bool)
      requires Valid()
      modifies this`num, data
      ensures Valid() && ok == (|old(Contents())| < QUEUE_SIZE)
      ensures Contents() == if ok then old(Contents()) + [c] else old(Contents())
    {
      if num < QUEUE_SIZE {
        data[(head + num) % QUEUE_SIZE] := c;
        num := num + 1;
        return true;
      }
      return false;
    }

    method DequeueChar() returns (ok: bool, c: int)
      requires Valid()
      modifies this`head, this`num
      ensures Valid() && ok == (old(Contents()) != []) && (head, num) == Skip(old(head), old(num))
      ensures if ok then [c] + Contents() == old(Contents()) else Contents() == []
    {
      if num > 0 {
        c := data[head];
        head := (head + 1) % QUEUE_SIZE;
        num := num - 1;
        return true, c;
      }
      return false, 0;
    }

    /** The loop of `enqueue_str`: queues characters up to the NUL, or as many as fit. */
    method EnqueueText(s: seq<int>, ghost k: nat) returns (ok: bool, i: nat)
      requires Valid() && k < |s| && s[k] == 0 && forall j | 0 <= j < k :: s[j] != 0
      modifies this`num, data
      ensures Valid() && i <= k && Contents() == old(Contents()) + s[..i]
      ensures if ok then i == k else |Contents()| == QUEUE_SIZE
    {
      ghost var before := Contents();
      i := 0;
      while s[i] != 0
        invariant Valid() && i <= k && Contents() == before + s[..i]
        decreases k - i
      {
        AppendOne(before, s, i);
        ghost var now := Contents();
        ok := EnqueueChar(s[i]);
        assert Contents() == if ok then now + [s[i]] else now;
        if !ok {
          return;
        }
        i := i + 1;
      }
      ok := true;
    }

    /** Queues a string with its NUL; when there is no room, as much of it as fits. */
    method EnqueueStr(s: seq<int>) returns (ok: bool)
      requires Valid() && NulAt(s) < |s|
      modifies this`num, data
      ensures Valid()
      ensures ok == (|old(Contents())| + NulAt(s) + 1 <= QUEUE_SIZE)
      ensures ok ==> Contents() == old(Contents()) + s[..NulAt(s) + 1]
      ensures !ok ==> Contents() == old(Contents()) + s[..QUEUE_SIZE - |old(Contents())|]
    {
      ghost var before := Contents();
      var i;
      BeforeNul(s);
      ok, i := EnqueueText(s, NulAt(s));
      AppendOne(before, s, i);
      if ok {
        ok := EnqueueChar(s[i]);
      }
    }

    /** The first loop of `dequeue_str`: drops NULs while one is at the head. */
    method SkipNulChars()
      requires Valid() && !SkipsForever(data[..], head, num)
      modifies this`head, this`num
      ensures Valid() && Contents() == SkipNuls(old(Contents()))
    {
      ghost var all := Contents();
      while data[head] == 0
        invariant Valid() && !SkipsForever(data[..], head, num)
        invariant SkipNuls(Contents()) == SkipNuls(all)
        decreases num
      {
        KeepsSkipping(data[..], head, num);
        RingHead(data[..], head, num);
        var _, _ := DequeueChar();
        SkipOneNul(Contents());
      }
      if num > 0 {
        RingHead(data[..], head, num);
      }
    }

    /** The second loop of `dequeue_str`: takes characters up to a NUL, or all there are. */
    method TakeString() returns (ok: bool, buf: seq<int>)
      requires Valid()
      modifies this`head, this`num
      ensures Valid() && old(Contents()) == buf + Contents()
      ensures ok ==> buf != [] && buf[|buf| - 1] == 0 && 0 !in buf[..|buf| - 1]
      ensures !ok ==> 0 !in buf && Contents() == []
    {
      ghost var all := Contents();
      buf := [];
      while true
        invariant Valid() && all == buf + Contents() && 0 !in buf
        decreases num
      {
        var more, c := DequeueChar();
        if !more {
          return false, buf;
        }
        buf := buf + [c];
        if c == 0 {
          return true, buf;
        }
      }
    }

    /** Drops leading NULs, then takes the characters up to the next NUL. `buf` is what was stored. */
    method DequeueStr() returns (ok: bool, buf: seq<int>)
      requires Valid() && !SkipsForever(data[..], head, num)
      modifies this`head, this`num
      ensures Valid() && Unframe(old(Contents())) == (ok, buf, Contents())
    {
      ghost var all := Contents();
      SkipNulChars();
      ok, buf := TakeString();
      if ok {
        UnframeFound(all, buf, Contents());
      } else {
        assert SkipNuls(all) == buf + [] == buf;
        UnframeEnds(all, buf);
      }
    }

    /** Queues strings one after the other in an empty ring, wherever its head is. */
    method EnqueueAll(strings: seq<seq<int>>)
      requires Valid() && Contents() == [] && AllPlain(strings) && |Frame(strings)| <= QUEUE_SIZE
      modifies this`num, data
      ensures Valid() && Contents() == Frame(strings)
    {
      for i := 0 to |strings|
        invariant Valid() && Contents() == Frame(strings[..i])
      {
        NextFrame(strings, i);
        var ok := EnqueueStr(strings[i] + [0]);
      }
      assert strings[..|strings|] == strings;
    }

    /** `dequeue_str` on a ring that starts with the frame of `s`: the string without its NUL. */
    method DequeueFirst(ghost s: seq<int>, ghost rest: seq<int>) returns (out: seq<int>)
      requires Valid() && Plain(s) && Contents() == s + [0] + rest
      modifies this`head, this`num
      ensures Valid() && Contents() == rest && out == s
    {
      UnframeFirst(s, rest);
      HeadIsPlain(s, rest);
      var ok, buf := DequeueStr();
      assert buf == s + [0];
      out := buf[..|buf| - 1];
    }

    /** Takes out `n` strings, each without its NUL. Every call finds a character to stop at. */
    method DequeueAll(n: nat, ghost strings: seq<seq<int>>) returns (out: seq<seq<int>>)
      requires Valid() && AllPlain(strings) && n == |strings| && Contents() == Frame(strings)
      modifies this`head, this`num
      ensures Valid() && Contents() == [] && out == strings
    {
      out := [];
      for i := 0 to n
        invariant Valid() && out == strings[..i] && Contents() == Frame(strings[i..])
      {
        FrameFirst(strings, i);
        var s := DequeueFirst(strings[i], Frame(strings[i + 1..]));
        out := out + [s];
      }
    }

    /** The round trip through the ring: what goes in comes out, in order. */
    method SendAndReceive(strings: seq<seq<int>>) returns (out: seq<seq<int>>)
      requires Valid() && Contents() == [] && AllPlain(strings) && |Frame(strings)| <= QUEUE_SIZE
      modifies this`head, this`num, data
      ensures Valid() && Contents() == [] && out == strings
    {
      EnqueueAll(strings);
      out := DequeueAll(|strings|, strings);
    }
  }

  /** While the skipping loop will end, a NUL at the head is a queued one, and it still will. */
  lemma KeepsSkipping(data: seq<int>, head: int, num: int)
    requires |data| == QUEUE_SIZE && 0 <= head < QUEUE_SIZE && 0 <= num <= QUEUE_SIZE
    requires !SkipsForever(data, head, num) && data[head] == 0
    ensures num > 0
    ensures var (h, n) := Skip(head, num); 0 <= h < QUEUE_SIZE && 0 <= n && !SkipsForever(data, h, n)
  {
    if num > 0 {
      RingHead(data, head, num);
    }
  }

  lemma {:induction false} FirstNul(s: seq<int>, rest: seq<int>)
    requires s != [] && s[|s| - 1] == 0 && 0 !in s[..|s| - 1]
    ensures NulAt(s + rest) == |s| - 1
  {
    if |s| > 1 {
      assert s[0] in s[..|s| - 1];
      assert s[1..][..|s| - 2] == s[..|s| - 1][1..];
      FirstNul(s[1..], rest);
      assert (s + rest)[1..] == s[1..] + rest;
    }
  }

  lemma UnframeFound(s: seq<int>, buf: seq<int>, rest: seq<int>)
    requires SkipNuls(s) == buf + rest && buf != [] && buf[|buf| - 1] == 0 && 0 !in buf[..|buf| - 1]
    ensures Unframe(s) == (true, buf, rest)
  {
    FirstNul(buf, rest);
    assert (buf + rest)[..|buf|] == buf && (buf + rest)[|buf|..] == rest;
  }

  lemma UnframeEnds(s: seq<int>, t: seq<int>)
    requires SkipNuls(s) == t && 0 !in t
    ensures Unframe(s) == (false, t, [])
  {
  }

  /**
   What `dequeue_str` delivers, without its two loops: leading NULs are gone and nothing else,
   it succeeds exactly when a NUL follows, and then stops at the first.
   */
  lemma UnframeMeans(s: seq<int>) returns (n: nat)
    ensures n <= |s| && (forall j | 0 <= j < n :: s[j] == 0) && (n < |s| ==> s[n] != 0)
    ensures var (ok, buf, rest) := Unframe(s);
      && buf + rest == s[n..] && (ok <==> 0 in s[n..]) && (!ok ==> rest == [])
      && (ok ==> buf != [] && buf[|buf| - 1] == 0 && 0 !in buf[..|buf| - 1])
  {
    n := Skipped(s);
    StopsAtFirstNul(s[n..]);
  }

  lemma Skipped(s: seq<int>) returns (n: nat)
    ensures n <= |s| && SkipNuls(s) == s[n..]
    ensures (forall j | 0 <= j < n :: s[j] == 0) && (n < |s| ==> s[n] != 0)
  {
    n := |s| - |SkipNuls(s)|;
  }

  lemma StopsAtFirstNul(t: seq<int>)
    ensures var (ok, buf, rest) := FirstString(t);
      && buf + rest == t && (ok <==> 0 in t) && (!ok ==> rest == [])
      && (ok ==> buf != [] && buf[|buf| - 1] == 0 && 0 !in buf[..|buf| - 1])
  {
    var k := NulAt(t);
    if k < |t| {
      SplitAtNul(t, k);
    } else {
      assert t + [] == t && t[..k] == t;
    }
  }

  lemma SplitAtNul(t: seq<int>, k: nat)
    requires k < |t| && t[k] == 0 && 0 !in t[..k]
    ensures t[..k + 1] + t[k + 1..] == t && 0 in t
    ensures t[..k + 1][|t[..k + 1]| - 1] == 0 && 0 !in t[..k + 1][..|t[..k + 1]| - 1]
  {
    assert t[..k + 1][..k] == t[..k];
  }

  // ---------------------------------------------------------------- the round trip

  /** The strings one after the other, each with its NUL. */
  function Frame(strings: seq<seq<int>>): (s: seq<int>) {
    if strings == [] then [] else strings[0] + [0] + Frame(strings[1..])
  }

  /** `n` calls of `dequeue_str`: what they deliver, each without its NUL. */
  function UnframeAll(s: seq<int>, n: nat): (strings: seq<seq<int>>) {
    if n == 0 then []
    else
      var (ok, buf, rest) := Unframe(s);
      if ok then [buf[..NulAt(buf)]] + UnframeAll(rest, n - 1) else []
  }

  ghost predicate Plain(s: seq<int>) {
    s != [] && 0 !in s
  }

  ghost predicate AllPlain(strings: seq<seq<int>>) {
    forall i | 0 <= i < |strings| :: Plain(strings[i])
  }

  /** A string queued behind the frames of those before it extends the frame, and still fits. */
  lemma NextFrame(strings: seq<seq<int>>, i: nat)
    requires i < |strings| && AllPlain(strings)
    ensures NulAt(strings[i] + [0]) == |strings[i]| && (strings[i] + [0])[..|strings[i]| + 1] == strings[i] + [0]
    ensures Frame(strings[..i + 1]) == Frame(strings[..i]) + (strings[i] + [0])
    ensures |Frame(strings[..i + 1])| <= |Frame(strings)|
  {
    var s := strings[i] + [0];
    assert s[..|s| - 1] == strings[i] && s + [] == s;
    FirstNul(s, []);
    FrameAppends(strings[..i], strings[i]);
    assert strings[..i + 1] == strings[..i] + [strings[i]];
    FrameIsLonger(strings, i + 1);
  }

  lemma FrameFirst(strings: seq<seq<int>>, i: nat)
    requires i < |strings|
    ensures Frame(strings[i..]) == strings[i] + [0] + Frame(strings[i + 1..])
  {
    assert strings[i..][1..] == strings[i + 1..];
  }

  lemma {:induction false} FrameIsLonger(strings: seq<seq<int>>, i: nat)
    requires i <= |strings|
    ensures |Frame(strings[..i])| <= |Frame(strings)|
  {
    if i > 0 {
      FrameIsLonger(strings[1..], i - 1);
      assert strings[..i][1..] == strings[1..][..i - 1];
    }
  }

  /** With a plain string at its head a ring does not skip for ever. */
  lemma HeadIsPlain(s: seq<int>, rest: seq<int>)
    requires Plain(s)
    ensures !AllNul(s + [0] + rest)
  {
    assert s[0] in s && (s + [0] + rest)[0] == s[0];
  }

  lemma UnframeFirst(s: seq<int>, rest: seq<int>)
    requires Plain(s)
    ensures Unframe(s + [0] + rest) == (true, s + [0], rest) && (s + [0])[..NulAt(s + [0])] == s
  {
    assert (s + [0] + rest)[0] == s[0] && s[0] in s;
    assert SkipNuls(s + [0] + rest) == s + [0] + rest;
    assert (s + [0])[..|s + [0]| - 1] == s;
    FirstNul(s + [0], rest);
    FirstNul(s + [0], []);
    assert s + [0] + [] == s + [0];
  }

  /** Queueing non-empty strings and taking as many out again gives the same strings in order. */
  lemma {:induction false} RoundTrip(strings: seq<seq<int>>)
    requires AllPlain(strings)
    ensures UnframeAll(Frame(strings), |strings|) == strings
  {
    if strings == [] {
      assert |strings| == 0;
    } else {
      var first, rest := strings[0], strings[1..];
      UnframeFirst(first, Frame(rest));
      RoundTrip(rest);
      UnframeStep(Frame(strings), |strings|, first + [0], Frame(rest), first);
      FirstAndRest(strings);
    }
  }

  lemma FirstAndRest<T>(s: seq<T>)
    requires s != []
    ensures [s[0]] + s[1..] == s
  {
  }

  lemma UnframeStep(s: seq<int>, n: nat, buf: seq<int>, rest: seq<int>, first: seq<int>)
    requires n > 0 && Unframe(s) == (true, buf, rest) && buf[..NulAt(buf)] == first
    ensures UnframeAll(s, n) == [first] + UnframeAll(rest, n - 1)
  {
  }

  /** What `enqueue_str` appends to a frame is the frame of one more string. */
  lemma {:induction false} FrameAppends(strings: seq<seq<int>>, s: seq<int>)
    ensures Frame(strings + [s]) == Frame(strings) + s + [0]
  {
    if strings == [] {
      assert Frame([s]) == s + [0] + Frame([]);
    } else {
      FrameAppends(strings[1..], s);
      assert (strings + [s])[1..] == strings[1..] + [s];
    }
  }
}
