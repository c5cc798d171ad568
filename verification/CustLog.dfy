/** Log output of custom kernels: a workspace split among blocks, each block filling
    its slice with NUL-terminated messages. */
module CustLog {
  import opened Arith
  import opened Wrappers

  // ----- splitting the workspace -----

  function PerUnit(size: nat, blockNum: nat): (n: nat)
    requires blockNum > 0
  {
    size / blockNum
  }

  function SliceStart(size: nat, blockNum: nat, id: nat): (n: nat)
    requires blockNum > 0
  {
    PerUnit(size, blockNum) * id
  }

  /** The last block takes what the division leaves over. */
  function SliceSize(size: nat, blockNum: nat, id: nat): (n: int)
    requires blockNum > 0
  {
    if id < blockNum - 1 then PerUnit(size, blockNum) else size - PerUnit(size, blockNum) * (blockNum - 1)
  }

  /** The slices follow each other without gap or overlap and fill the workspace. All but
      the last have one size, the largest that fits once for every block, and the last one
      exceeds it by less than a byte for every block. */
  lemma SlicesTile(size: nat, blockNum: nat, id: nat)
    requires id < blockNum
    ensures SliceStart(size, blockNum, 0) == 0
    ensures SliceSize(size, blockNum, id) >= 0
    ensures SliceStart(size, blockNum, id) + SliceSize(size, blockNum, id)
         == if id == blockNum - 1 then size else SliceStart(size, blockNum, id + 1)
    ensures SliceStart(size, blockNum, id) + SliceSize(size, blockNum, id) <= size
    ensures var n := SliceSize(size, blockNum, id);
      && (id < blockNum - 1 ==> n == SliceSize(size, blockNum, 0) && n * blockNum <= size < (n + 1) * blockNum)
      && (id == blockNum - 1 > 0 ==> SliceSize(size, blockNum, 0) <= n < SliceSize(size, blockNum, 0) + blockNum)
  {
    hide PerUnit;
    var u := PerUnit(size, blockNum);
    UnitBounds(size, blockNum, u);
    UnitsBefore(u, blockNum, id);
  }

  lemma UnitBounds(size: nat, blockNum: nat, u: nat)
    requires blockNum > 0 && u == PerUnit(size, blockNum)
    ensures u * blockNum <= size < u * blockNum + blockNum == (u + 1) * blockNum
    ensures u * (blockNum - 1) == u * blockNum - u
  {}

  lemma UnitsBefore(u: nat, blockNum: nat, id: nat)
    requires id < blockNum
    ensures u * (id + 1) == u * id + u <= u * blockNum
  {
    MulMonotone(id + 1, blockNum, u);
  }

  /** Slices of different blocks do not overlap. */
  lemma SlicesDisjoint(size: nat, blockNum: nat, a: nat, b: nat)
    requires a < b < blockNum
    ensures SliceStart(size, blockNum, a) + SliceSize(size, blockNum, a) <= SliceStart(size, blockNum, b)
  {
    SlicesTile(size, blockNum, a);
    var u := PerUnit(size, blockNum);
    MulMonotone(a + 1, b, u);
    assert (a + 1) * u == u * (a + 1) && b * u == u * b;
  }

  // ----- messages -----

  const MSG_LENGTH: nat := 1024
  const NEWLINE: Byte := 10

  /** A C string: no NUL but the last byte. */
  ghost predicate Terminated(m: Bytes) {
    m != [] && m[|m| - 1] == 0 && forall i :: 0 <= i < |m| - 1 ==> m[i] != 0
  }

  /** The text of a message with a line break appended if it has none; a full buffer
      loses its last character to it. */
  method FinishMessage(text: Bytes) returns (m: Bytes)
    requires |text| < MSG_LENGTH && forall i :: 0 <= i < |text| ==> text[i] != 0
    ensures Terminated(m) && |m| <= MSG_LENGTH
    ensures |text| > 1 ==> |m| >= 2 && m[|m| - 2] == NEWLINE
    ensures |text| <= 1 || text[|text| - 1] == NEWLINE ==> m == text + [0]
    ensures |text| > 1 && text[|text| - 1] != NEWLINE ==>
      m == text[..if |text| + 2 <= MSG_LENGTH then |text| else MSG_LENGTH - 2] + [NEWLINE, 0]
  {
    m := text + [0];
    if |text| > 1 && text[|text| - 1] != NEWLINE {
      if |text| < MSG_LENGTH - 1 {
        m := text + [NEWLINE, 0];
      } else {
        m := m[MSG_LENGTH - 2 := NEWLINE];
      }
    }
  }

  // ----- writing -----

  function Flatten(ms: seq<Bytes>): (c: Bytes) {
    if ms == [] then [] else Flatten(ms[..|ms| - 1]) + ms[|ms| - 1]
  }

  /** What a slice of n bytes shows of the text c: all but the last byte may carry
      text, the rest is zero. */
  function Shown(c: Bytes, n: nat): (s: Bytes)
    ensures |s| == n
    ensures forall i :: 0 <= i < n ==> s[i] == if i < |c| && i < n - 1 then c[i] else 0
  {
    seq(n, i requires 0 <= i < n => if i < |c| && i < n - 1 then c[i] else 0)
  }

  /** The slice shows the messages so far, and the write position is behind them or the
      slice is closed. */
  ghost predicate InStep(mem: Bytes, start: nat, total: nat, addr: nat, size: nat, log: seq<Bytes>) {
    && 0 < start && start + total <= |mem|
    && (forall i :: 0 <= i < |log| ==> Terminated(log[i]))
    && mem[start..start + total] == Shown(Flatten(log), total)
    && (if size > 1 then addr + size == start + total && addr == start + |Flatten(log)|
        else |Flatten(log)| >= total - 1)
  }

  /** A kernel context: its slice of memory, and the part not yet written. */
  class Context {
    const memory: array<Byte>
    const start: nat
    const total: nat
    var addr: nat
    var size: nat
    ghost var log: seq<Bytes>

    /** UpdateCustWorkSpaceInfo: takes the slice and clears it. Address zero is null. */
    constructor (mem: array<Byte>, from: nat, n: nat)
      requires 0 < from && from + n <= mem.Length
      modifies mem
      ensures memory == mem && start == from && total == n && log == [] && Valid()
      ensures Untouched(old(mem[..]), mem[..], from, n)
    {
      memory, start, total, addr, size, log := mem, from, n, from, n, [];
      new;
      for i := 0 to n
        invariant addr == start && size == total && log == []
        invariant memory == mem && start == from && total == n
        invariant Untouched(old(mem[..]), mem[..], from, n)
        invariant forall k :: from <= k < from + i ==> mem[k] == 0
      {
        mem[from + i] := 0;
      }
    }

    ghost predicate Valid()
      reads this, memory
    {
      InStep(memory[..], start, total, addr, size, log)
    }

    /** Copies the message, or as much as fits with a zero behind it. The secure copy
        refuses an empty destination, so a single byte is left alone. */
    method SafeWrite(msg: Bytes)
      requires addr + size <= memory.Length
      modifies this`addr, this`size, memory
      ensures memory[..] == Poked(old(memory[..]), old(addr), msg[..Fits(old(size), |msg|)])
      ensures if old(size) > 0 && old(size) >= |msg| then addr == old(addr) + |msg| && size == old(size) - |msg|
              else addr == old(addr) && size == if old(size) > 1 then 0 else old(size)
    {
      if size <= 0 {
        NothingPoked(memory[..], addr, msg);
        return;
      }
      if size >= |msg| {
        Copy(memory, addr, msg);
        assert msg[..|msg|] == msg;
        addr := addr + |msg|;
        size := size - |msg|;
      } else {
        if size - 1 == 0 {
          NothingPoked(memory[..], addr, msg);
          return;
        }
        Copy(memory, addr, msg[..size - 1]);
        size := 0;
      }
    }

    /** One log call: a slice without room for a character and a zero is left alone. */
    method Log(msg: Bytes)
      requires Valid() && Terminated(msg)
      modifies this`addr, this`size, this`log, memory
      ensures Valid() && log == old(log) + [msg]
      ensures Untouched(old(memory[..]), memory[..], start, total)
    {
      hide Poked, Shown, Flatten, Untouched;
      FlattenSnoc(log, msg);
      NothingTouched(memory[..], start, total);
      if size <= 1 || addr == 0 {
        ClosedShows(Flatten(log), msg, total);
        log := log + [msg];
        return;
      }
      ghost var c, before := Flatten(log), memory[..];
      WriteShows(before, start, total, c, msg);
      SafeWrite(msg);
      log := log + [msg];
    }
  }

  /** How many bytes of a message of the given length are copied. */
  function Fits(size: nat, length: nat): (n: nat)
    ensures n <= length && n <= size
    ensures size > 0 ==> (n == length || n == size - 1) && (n == length <==> length <= size)
  {
    if size == 0 then 0 else if size >= length then length else size - 1
  }

  /** mem with bytes written from position a. */
  function Poked(mem: Bytes, a: nat, bytes: Bytes): (r: Bytes)
    requires a + |bytes| <= |mem|
    ensures |r| == |mem|
    ensures forall k {:trigger r[k]} :: 0 <= k < |mem| ==> r[k] == if a <= k < a + |bytes| then bytes[k - a] else mem[k]
  {
    mem[..a] + bytes + mem[a + |bytes|..]
  }

  lemma NothingPoked(mem: Bytes, a: nat, msg: Bytes)
    requires a <= |mem|
    ensures Poked(mem, a, msg[..0]) == mem
  {}

  method Copy(memory: array<Byte>, a: nat, bytes: Bytes)
    requires a + |bytes| <= memory.Length
    modifies memory
    ensures memory[..] == Poked(old(memory[..]), a, bytes)
  {
    for i := 0 to |bytes|
      invariant forall k :: 0 <= k < memory.Length ==>
        memory[k] == if a <= k < a + i then bytes[k - a] else old(memory[k])
    {
      memory[a + i] := bytes[i];
    }
  }

  /** Bytes outside n bytes from position a are the same. */
  ghost predicate Untouched(mem: Bytes, mem': Bytes, a: nat, n: nat) {
    |mem'| == |mem| && forall k :: 0 <= k < |mem| && !(a <= k < a + n) ==> mem'[k] == mem[k]
  }

  lemma NothingTouched(mem: Bytes, a: nat, n: nat)
    ensures Untouched(mem, mem, a, n)
  {}

  lemma FlattenSnoc(ms: seq<Bytes>, m: Bytes)
    ensures Flatten(ms + [m]) == Flatten(ms) + m
  {}

  /** Text behind the last visible byte changes nothing. */
  lemma ClosedShows(c: Bytes, m: Bytes, n: nat)
    requires |c| >= n - 1
    ensures Shown(c + m, n) == Shown(c, n)
  {}

  /** Writing a message behind the text c keeps the slice equal to what is shown. */
  lemma WriteShows(mem: Bytes, start: nat, n: nat, c: Bytes, m: Bytes)
    requires start + n <= |mem| && mem[start..start + n] == Shown(c, n)
    requires |c| + 1 < n && Terminated(m)
    ensures var w := Poked(mem, start + |c|, m[..Fits(n - |c|, |m|)]);
      && w[start..start + n] == Shown(c + m, n)
      && Untouched(mem, w, start, n)
  {
    var k := Fits(n - |c|, |m|);
    var w := Poked(mem, start + |c|, m[..k]);
    forall i | 0 <= i < n ensures w[start + i] == Shown(c + m, n)[i] {
      assert mem[start..start + n][i] == mem[start + i];
    }
  }

  // ----- all blocks together -----

  /** A block gets its context, or logs through it. */
  datatype Event = Start(block: nat) | Write(block: nat, msg: Bytes)

  /** The messages of a block since its context was made, if it was. */
  function Logged(es: seq<Event>, b: nat): (ms: Option<seq<Bytes>>) {
    if es == [] then None else
      var before, last := Logged(es[..|es| - 1], b), es[|es| - 1];
      if last.block != b then before
      else if last.Start? then Some([])
      else match before case None => None case Some(ms) => Some(ms + [last.msg])
  }

  /** What the slice of block b must hold. */
  ghost predicate SliceHolds(mem: Bytes, base: nat, size: nat, blockNum: nat, b: nat, ms: seq<Bytes>)
    requires b < blockNum && base + size <= |mem|
  {
    SlicesTile(size, blockNum, b);
    var from, n := base + SliceStart(size, blockNum, b), SliceSize(size, blockNum, b);
    mem[from..from + n] == Shown(Flatten(ms), n) && (n > 0 ==> mem[from + n - 1] == 0)
  }

  /** The context of block b. */
  ghost predicate Serves(c: Context, memory: array<Byte>, base: nat, size: nat, blockNum: nat, b: nat)
    requires b < blockNum
  {
    && c.memory == memory && c.start == base + SliceStart(size, blockNum, b)
    && c.total == SliceSize(size, blockNum, b)
  }

  /** Writing one block's slice leaves the slice of another as it was. */
  lemma OtherSliceKept(mem: Bytes, mem1: Bytes, base: nat, size: nat, blockNum: nat, a: nat, b: nat)
    requires a < blockNum && b < blockNum && a != b && base + size <= |mem|
    requires SliceSize(size, blockNum, a) >= 0
    requires Untouched(mem, mem1, base + SliceStart(size, blockNum, a), SliceSize(size, blockNum, a))
    ensures var from, n := base + SliceStart(size, blockNum, b), SliceSize(size, blockNum, b);
      n >= 0 && from + n <= |mem| == |mem1| && mem1[from..from + n] == mem[from..from + n]
  {
    SlicesTile(size, blockNum, a);
    SlicesTile(size, blockNum, b);
    if a < b {
      SlicesDisjoint(size, blockNum, a, b);
    } else {
      SlicesDisjoint(size, blockNum, b, a);
    }
  }

  /** Changes inside one slice are changes inside the workspace. */
  lemma SliceInside(mem: Bytes, mem1: Bytes, mem2: Bytes, base: nat, size: nat, blockNum: nat, b: nat)
    requires b < blockNum && Untouched(mem, mem1, base, size)
    requires SliceSize(size, blockNum, b) >= 0
    requires Untouched(mem1, mem2, base + SliceStart(size, blockNum, b), SliceSize(size, blockNum, b))
    ensures Untouched(mem, mem2, base, size)
  {
    SlicesTile(size, blockNum, b);
  }

  /** Block b has no context yet, or its own one, holding the messages it logged. */
  ghost predicate BlockServed(contexts: map<nat, Context>, memory: array<Byte>, base: nat, size: nat, blockNum: nat,
                              es: seq<Event>, b: nat)
    reads contexts.Values, memory
  {
    if b in contexts then
      && b < blockNum && Serves(contexts[b], memory, base, size, blockNum, b)
      && contexts[b].Valid() && Logged(es, b) == Some(contexts[b].log)
    else Logged(es, b) == None
  }

  ghost predicate Served(contexts: map<nat, Context>, memory: array<Byte>, base: nat, size: nat, blockNum: nat,
                         es: seq<Event>)
    reads contexts.Values, memory
  {
    && (forall b: nat :: BlockServed(contexts, memory, base, size, blockNum, es, b))
    && (forall a, b :: a in contexts && b in contexts && a != b ==> contexts[a] != contexts[b])
  }

  /** A context keeps its state when another block's slice is written. */
  lemma ContextKept(mem: Bytes, mem1: Bytes, base: nat, size: nat, blockNum: nat, a: nat, b: nat, addr: nat, left: nat,
                    log: seq<Bytes>)
    requires a < blockNum && b < blockNum && a != b && base + size <= |mem|
    requires SliceSize(size, blockNum, a) >= 0 && SliceSize(size, blockNum, b) >= 0
    requires Untouched(mem, mem1, base + SliceStart(size, blockNum, a), SliceSize(size, blockNum, a))
    requires InStep(mem, base + SliceStart(size, blockNum, b), SliceSize(size, blockNum, b), addr, left, log)
    ensures InStep(mem1, base + SliceStart(size, blockNum, b), SliceSize(size, blockNum, b), addr, left, log)
  {
    OtherSliceKept(mem, mem1, base, size, blockNum, a, b);
  }

  lemma NothingLogged()
    ensures forall b: nat :: Logged([], b) == None
  {}

  lemma LoggedSnoc(es: seq<Event>, e: Event, b: nat)
    ensures Logged(es + [e], b) ==
      if e.block != b then Logged(es, b)
      else if e.Start? then Some([])
      else match Logged(es, b) case None => None case Some(ms) => Some(ms + [e.msg])
  {}

  method MakeContext(contexts: map<nat, Context>, memory: array<Byte>, base: nat, size: nat, blockNum: nat, block: nat,
                     ghost es: seq<Event>)
      returns (next: map<nat, Context>)
    requires 0 < base && base + size <= memory.Length && block < blockNum
    requires Served(contexts, memory, base, size, blockNum, es)
    modifies memory
    ensures Served(next, memory, base, size, blockNum, es + [Start(block)])
    ensures forall c :: c in next.Values ==> c in contexts.Values || fresh(c)
    ensures Untouched(old(memory[..]), memory[..], base, size)
  {
    hide InStep, Logged, Untouched, SliceStart, SliceSize;
    ghost var was := memory[..];
    SlicesTile(size, blockNum, block);
    var from, n := base + SliceStart(size, blockNum, block), SliceSize(size, blockNum, block);
    var ctx := new Context(memory, from, n);
    next := contexts[block := ctx];
    NothingTouched(old(memory[..]), base, size);
    SliceInside(old(memory[..]), old(memory[..]), memory[..], base, size, blockNum, block);
    LoggedSnoc(es, Start(block), block);
    forall b: nat ensures BlockServed(next, memory, base, size, blockNum, es + [Start(block)], b) {
      if b != block {
        LoggedSnoc(es, Start(block), b);
        assert old(BlockServed(contexts, memory, base, size, blockNum, es, b));
        if b in contexts {
          var c := contexts[b];
          ContextKept(was, memory[..], base, size, blockNum, block, b, c.addr, c.size, c.log);
        }
      }
    }
  }

  method WriteThrough(contexts: map<nat, Context>, memory: array<Byte>, base: nat, size: nat, blockNum: nat, block: nat,
                      msg: Bytes, ghost es: seq<Event>)
    requires 0 < base && base + size <= memory.Length && block < blockNum && Terminated(msg)
    requires Served(contexts, memory, base, size, blockNum, es)
    modifies memory, contexts.Values
    ensures Served(contexts, memory, base, size, blockNum, es + [Write(block, msg)])
    ensures Untouched(old(memory[..]), memory[..], base, size)
  {
    hide InStep, Logged, Untouched, SliceStart, SliceSize;
    ghost var was := memory[..];
    SlicesTile(size, blockNum, block);
    assert BlockServed(contexts, memory, base, size, blockNum, es, block);
    if block in contexts {
      contexts[block].Log(msg);
    } else {
      NothingTouched(memory[..], base + SliceStart(size, blockNum, block), SliceSize(size, blockNum, block));
    }
    NothingTouched(old(memory[..]), base, size);
    SliceInside(old(memory[..]), old(memory[..]), memory[..], base, size, blockNum, block);
    LoggedSnoc(es, Write(block, msg), block);
    forall b: nat ensures BlockServed(contexts, memory, base, size, blockNum, es + [Write(block, msg)], b) {
      if b != block {
        LoggedSnoc(es, Write(block, msg), b);
        assert old(BlockServed(contexts, memory, base, size, blockNum, es, b));
        if b in contexts {
          var c := contexts[b];
          ContextKept(was, memory[..], base, size, blockNum, block, b, c.addr, c.size, c.log);
        }
      }
    }
  }

  /** Every interleaving of contexts being made and messages being logged: each slice
      ends up with a prefix of its own block's messages followed by zeros, its last
      byte is zero, and nothing outside the workspace changes. */
  method LogBlocks(memory: array<Byte>, base: nat, size: nat, blockNum: nat, events: seq<Event>)
    requires 0 < base && base + size <= memory.Length
    requires forall i :: 0 <= i < |events| ==> events[i].block < blockNum
    requires forall i :: 0 <= i < |events| && events[i].Write? ==> Terminated(events[i].msg)
    modifies memory
    ensures forall b: nat :: b < blockNum && Logged(events, b).Some? ==>
      SliceHolds(memory[..], base, size, blockNum, b, Logged(events, b).value)
    ensures Untouched(old(memory[..]), memory[..], base, size)
  {
    hide Untouched, Shown, Flatten, Logged, SliceStart, SliceSize;
    var contexts: map<nat, Context> := map[];
    NothingTouched(memory[..], base, size);
    NothingLogged();
    assert events[..0] == [];
    for i := 0 to |events|
      invariant Served(contexts, memory, base, size, blockNum, events[..i])
      invariant forall c :: c in contexts.Values ==> fresh(c)
      invariant Untouched(old(memory[..]), memory[..], base, size)
    {
      ghost var before := memory[..];
      var e := events[i];
      if e.Start? {
        contexts := MakeContext(contexts, memory, base, size, blockNum, e.block, events[..i]);
      } else {
        WriteThrough(contexts, memory, base, size, blockNum, e.block, e.msg, events[..i]);
      }
      assert events[..i + 1] == events[..i] + [events[i]];
      UntouchedThen(old(memory[..]), before, memory[..], base, size);
    }
    assert events[..|events|] == events;
    forall b: nat | b < blockNum && Logged(events, b).Some?
      ensures SliceHolds(memory[..], base, size, blockNum, b, Logged(events, b).value)
    {
      assert BlockServed(contexts, memory, base, size, blockNum, events, b);
      SlicesTile(size, blockNum, b);
      ShownEnds(Flatten(contexts[b].log), SliceSize(size, blockNum, b));
    }
  }

  lemma UntouchedThen(m0: Bytes, m1: Bytes, m2: Bytes, a: nat, n: nat)
    requires Untouched(m0, m1, a, n) && Untouched(m1, m2, a, n)
    ensures Untouched(m0, m2, a, n)
  {}

  lemma ShownEnds(c: Bytes, n: nat)
    ensures |Shown(c, n)| == n && (n > 0 ==> Shown(c, n)[n - 1] == 0)
  {}
}
