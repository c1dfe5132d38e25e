/**
 * The two-call protocol between the host and a WASM guest. A host call leaves its bytes on the host side
 * and replies with their length, or with ERR_RESULT; the guest then asks for a copy in linear memory.
 */
module HostAbi {
  import opened Wrappers

  newtype byte = x: int | 0 <= x < 256

  const WORD := 0x1_0000_0000
  const ERR_RESULT := 0xFFFF_FFFF
  const ERR_BUF := 4096

  type U32 = x: int | 0 <= x < WORD

  type Bytes = seq<byte>

  // ---- specification ----

  /** How many bytes copy32 reports. The length of src is truncated to 32 bits. */
  function Count(outLen: nat, src: Bytes): (n: nat)
    ensures n <= outLen && n <= |src|
  {
    if |src| == 0 || outLen == 0 then 0
    else if |src| % WORD > outLen then outLen else |src| % WORD
  }

  /** Memory().Write: nothing happens when the range does not fit. */
  function Written(mem: Bytes, at: nat, data: Bytes): (r: Bytes)
    ensures |r| == |mem|
  {
    if at + |data| <= |mem| then mem[..at] + data + mem[at + |data|..] else mem
  }

  /** Memory().Read */
  function ReadAt(mem: Bytes, at: nat, length: nat): Option<Bytes> {
    if at + length <= |mem| then Some(mem[at..at + length]) else None
  }

  function Zeros(n: nat): (r: Bytes)
    ensures |r| == n
  {
    seq(n, _ => 0)
  }

  predicate SameOutside(a: Bytes, b: Bytes, at: nat, length: nat) {
    |a| == |b| && forall i | 0 <= i < |a| && !(at <= i < at + length) :: a[i] == b[i]
  }

  lemma {:induction false} WrittenIs(mem: Bytes, at: nat, data: Bytes)
    requires at + |data| <= |mem|
    ensures Written(mem, at, data)[at..at + |data|] == data
    ensures SameOutside(mem, Written(mem, at, data), at, |data|)
  {}

  lemma {:induction false} WrittenFrom(mem: Bytes, at: nat, data: Bytes, length: nat)
    requires at + length <= |mem| && |data| <= length
    ensures Written(mem, at, data)[at..at + length] == data + mem[at + |data|..at + length]
    ensures SameOutside(mem, Written(mem, at, data), at, length)
  {}

  /** Writing nothing changes nothing. */
  lemma {:induction false} WrittenNothing(mem: Bytes, at: nat)
    ensures Written(mem, at, []) == mem
  {}

  // ---- the host side ----

  /** The outcome of the work behind a host call; a nil slice of bytes is None. */
  datatype Work = Ok(data: Option<Bytes>) | Err(text: Bytes)

  function Data(o: Option<Bytes>): Bytes {
    if o.Some? then o.value else []
  }

  datatype Host = Host(result: Option<Bytes>, errMsg: Option<Bytes>, hostCalls: nat)

  /**
   * One kind of call for each pattern of host functions. Read: result_read, error_read, event_read,
   * get_trace_id. Produce: bucket_get, bucket_list, flag_eval_variant, fn_invoke, http_fetch, table_get,
   * table_put, table_query. Act: bucket_put, bucket_delete, table_delete. Answer: flag_eval, metrics_publish.
   */
  datatype Call =
    | Read
    | Produce(w: Work)
    | Act(w: Work)
    | CallerContext(marshalError: Option<Bytes>)
    | Answer

  function Settled(h: Host, w: Work): Host {
    match w
    case Ok(data) => h.(result := data, errMsg := None)
    case Err(text) => h.(errMsg := Some(text), result := None)
  }

  function Next(h: Host, c: Call): Host {
    var counted := h.(hostCalls := h.hostCalls + 1);
    match c
    case Produce(w) => Settled(counted, w)
    case Act(w) => if w.Err? then Settled(counted, w) else counted
    case CallerContext(e) => if e.Some? then Settled(counted, Err(e.value)) else counted
    case _ => counted
  }

  function Run(h: Host, calls: seq<Call>): Host {
    if calls == [] then h else Next(Run(h, calls[..|calls| - 1]), calls[|calls| - 1])
  }

  /** What a call leaves to be read, if it leaves anything. */
  function Leaves(c: Call): Option<Work> {
    match c
    case Produce(w) => Some(w)
    case Act(w) => if w.Err? then Some(w) else None
    case CallerContext(e) => if e.Some? then Some(Err(e.value)) else None
    case _ => None
  }

  /** What the last call that left anything left. */
  function Latest(calls: seq<Call>): Option<Work> {
    if calls == [] then None
    else if Leaves(calls[|calls| - 1]).Some? then Leaves(calls[|calls| - 1])
    else Latest(calls[..|calls| - 1])
  }

  const FRESH := Host(None, None, 0)

  /**
   * Over any run of host calls the state shows what the last call that left anything left, and nothing
   * older: its data or its error text, never both.
   */
  lemma {:induction false} RunShowsLatest(calls: seq<Call>)
    ensures var h, last := Run(FRESH, calls), Latest(calls);
            && h.hostCalls == |calls|
            && h.result == (if last.Some? && last.value.Ok? then last.value.data else None)
            && h.errMsg == (if last.Some? && last.value.Err? then Some(last.value.text) else None)
            && !(h.result.Some? && h.errMsg.Some?)
  {
    if calls != [] { RunShowsLatest(calls[..|calls| - 1]); }
  }

  class InvState {
    var result: Option<Bytes>
    var errMsg: Option<Bytes>
    var hostCalls: nat

    constructor ()
      ensures View() == FRESH
    {
      result, errMsg, hostCalls := None, None, 0;
    }

    function View(): Host
      reads this
    {
      Host(result, errMsg, hostCalls)
    }

    /** setResult */
    method SetResult(data: Option<Bytes>)
      modifies this
      ensures View() == Settled(old(View()), Ok(data))
    {
      result := data;
      errMsg := None;
    }

    /** setError */
    method SetError(text: Bytes)
      modifies this
      ensures View() == Settled(old(View()), Err(text))
    {
      errMsg := Some(text);
      result := None;
    }

    /** A host function that leaves its result to be read: the reply is its length in 32 bits, or ERR_RESULT. */
    method Produce(w: Work) returns (reply: U32)
      modifies this
      ensures View() == Next(old(View()), Call.Produce(w))
      ensures reply == if w.Ok? then |Data(w.data)| % WORD else ERR_RESULT
    {
      hostCalls := hostCalls + 1;
      match w {
        case Err(text) =>
          SetError(text);
          return ERR_RESULT;
        case Ok(data) =>
          SetResult(data);
          return |Data(data)| % WORD;
      }
    }

    /** A host function that only acts: 1, or 0 with the error left to be read. */
    method Act(w: Work) returns (reply: U32)
      modifies this
      ensures View() == Next(old(View()), Call.Act(w))
      ensures reply == if w.Ok? then 1 else 0
    {
      hostCalls := hostCalls + 1;
      if w.Err? {
        SetError(w.text);
        return 0;
      }
      return 1;
    }

    /** result_read */
    method ResultRead(m: array<byte>, outPtr: U32, outLen: U32) returns (n: U32)
      modifies this, m
      ensures View() == Next(old(View()), Read) && n == Count(outLen, Data(result))
      ensures m[..] == Written(old(m[..]), outPtr, Data(result)[..n])
    {
      hostCalls := hostCalls + 1;
      n := Copy32(m, outPtr, outLen, Data(result));
    }

    /** error_read */
    method ErrorRead(m: array<byte>, outPtr: U32, outLen: U32) returns (n: U32)
      modifies this, m
      ensures View() == Next(old(View()), Read) && n == Count(outLen, Data(errMsg))
      ensures m[..] == Written(old(m[..]), outPtr, Data(errMsg)[..n])
    {
      hostCalls := hostCalls + 1;
      n := Copy32(m, outPtr, outLen, Data(errMsg));
    }

    /** get_caller_context: None when the invocation carries no caller, else its encoding or the encoding error. */
    method GetCallerContext(m: array<byte>, outPtr: U32, outLen: U32, caller: Option<Work>) returns (n: U32)
      modifies this, m
      ensures View() == Next(old(View()),
            CallerContext(if caller.Some? && caller.value.Err? then Some(caller.value.text) else None))
      ensures n == if caller.Some? && caller.value.Ok? then Count(outLen, Data(caller.value.data)) else 0
      ensures m[..] == if caller.Some?
            && caller.value.Ok? then Written(old(m[..]), outPtr, Data(caller.value.data)[..n]) else old(m[..])
    {
      hostCalls := hostCalls + 1;
      if caller.None? {
        return 0;
      }
      match caller.value {
        case Err(text) =>
          SetError(text);
          return 0;
        case Ok(data) =>
          n := Copy32(m, outPtr, outLen, Data(data));
      }
    }
  }

  /** copy32. The count is reported even when the write does not fit. */
  method Copy32(m: array<byte>, outPtr: U32, outLen: U32, src: Bytes) returns (n: U32)
    modifies m
    ensures n == Count(outLen, src) && m[..] == Written(old(m[..]), outPtr, src[..n])
  {
    if |src| == 0 || outLen == 0 {
      WrittenNothing(m[..], outPtr);
      return 0;
    }
    n := |src| % WORD;
    if n > outLen {
      n := outLen;
    }
    MemoryWrite(m, outPtr, src[..n]);
  }

  method MemoryWrite(m: array<byte>, at: U32, data: Bytes)
    modifies m
    ensures m[..] == Written(old(m[..]), at, data)
  {
    if at + |data| <= m.Length {
      forall i | 0 <= i < |data| {
        m[at + i] := data[i];
      }
    }
  }

  /** readStr */
  method ReadStr(m: array<byte>, ptr: U32, length: U32) returns (s: Bytes)
    ensures s == Data(ReadAt(m[..], ptr, length))
  {
    if length == 0 || ptr + length > m.Length {
      return [];
    }
    return m[ptr..ptr + length];
  }

  /** readBytes: an empty or unreadable range gives a nil slice. */
  method ReadBytes(m: array<byte>, ptr: U32, length: U32) returns (data: Option<Bytes>)
    ensures data == if length == 0 then None else ReadAt(m[..], ptr, length)
  {
    if length == 0 || ptr + length > m.Length {
      return None;
    }
    return Some(m[ptr..ptr + length]);
  }

  // ---- the guest side ----

  datatype Reply = Got(data: Bytes) | HostError(text: Bytes)

  const UNKNOWN_ERROR: Bytes := [117, 110, 107, 110, 111, 119, 110, 32, 101, 114, 114, 111, 114]

  /** strPtr and bufPtr: the pointer and length passed for a string that lies at `at`. */
  function StrPtr(s: Bytes, at: U32): (U32, U32)
    requires |s| < WORD
  {
    if |s| == 0 then (0, 0) else (at, |s|)
  }

  /** An argument that the guest passes by pointer and length arrives at the host as it is. */
  lemma {:induction false} ArgumentArrives(mem: Bytes, s: Bytes, at: U32)
    requires |s| < WORD && at + |s| <= |mem| && mem[at..at + |s|] == s
    ensures Data(ReadAt(mem, StrPtr(s, at).0, StrPtr(s, at).1)) == s
  {}

  /** readResult into a new zeroed buffer at `at`. */
  method ReadResult(st: InvState, m: array<byte>, at: U32, size: U32) returns (buf: Bytes)
    requires at + size <= m.Length
    modifies st, m
    ensures st.result == old(st.result) && st.errMsg == old(st.errMsg)
    ensures st.hostCalls == old(st.hostCalls) + if size == 0 then 0 else 1
    ensures var n := Count(size, Data(st.result)); buf == Data(st.result)[..n] + Zeros(size - n)
    ensures SameOutside(old(m[..]), m[..], at, size)
  {
    MemoryWrite(m, at, Zeros(size));
    WrittenIs(old(m[..]), at, Zeros(size));
    if size == 0 {
      return [];
    }
    ghost var zeroed := m[..];
    var n := st.ResultRead(m, at, size);
    WrittenFrom(zeroed, at, Data(st.result)[..n], size);
    assert zeroed[at + n..at + size] == zeroed[at..at + size][n..];
    buf := m[at..at + size];
  }

  /** readLastError into the package-level buffer at errBuf. */
  method ReadLastError(st: InvState, m: array<byte>, errBuf: U32) returns (text: Bytes)
    requires errBuf + ERR_BUF <= m.Length
    modifies st, m
    ensures st.View() == Next(old(st.View()), Read)
    ensures var n := Count(ERR_BUF, Data(st.errMsg)); text == if n == 0 then UNKNOWN_ERROR else Data(st.errMsg)[..n]
    ensures SameOutside(old(m[..]), m[..], errBuf, ERR_BUF)
  {
    var n := st.ErrorRead(m, errBuf, ERR_BUF);
    WrittenFrom(old(m[..]), errBuf, Data(st.errMsg)[..n], ERR_BUF);
    WrittenIs(old(m[..]), errBuf, Data(st.errMsg)[..n]);
    if n == 0 {
      return UNKNOWN_ERROR;
    }
    return m[errBuf..errBuf + n];
  }

  /** What the guest ends up with. */
  function Received(w: Work): Reply {
    match w
    case Ok(data) =>
      if |Data(data)| % WORD == ERR_RESULT then HostError(UNKNOWN_ERROR) else Got(Data(data)[..|Data(data)| % WORD])
    case Err(text) =>
      if Count(ERR_BUF, text) == 0 then HostError(UNKNOWN_ERROR) else HostError(text[..Count(ERR_BUF, text)])
  }

  /**
   * A guest call of the result-producing kind, as in GetObject, followed by the read of its result (at a
   * new buffer at `at`) or of its error. Only that buffer changes in linear memory.
   */
  method CallAndRead(st: InvState, m: array<byte>, w: Work, at: U32, errBuf: U32) returns (r: Reply)
    requires w.Ok? ==> at + |Data(w.data)| % WORD <= m.Length
    requires errBuf + ERR_BUF <= m.Length
    modifies st, m
    ensures r == Received(w)
    ensures st.result == (if w.Ok? then w.data else None) && st.errMsg == (if w.Err? then Some(w.text) else None)
    ensures st.hostCalls == old(st.hostCalls) + if r == Got([]) then 1 else 2
    ensures if r.Got? then SameOutside(old(m[..]), m[..], at, |r.data|)
          else SameOutside(old(m[..]), m[..], errBuf, ERR_BUF)
  {
    var size := st.Produce(w);
    if size == ERR_RESULT {
      var text := ReadLastError(st, m, errBuf);
      return HostError(text);
    }
    var buf := ReadResult(st, m, at, size);
    var n := Count(size, Data(w.data));
    assert n == size;
    return Got(buf);
  }

  /** A guest call of the acting kind, as in PutObject: None, or the error text. */
  method CallAndCheck(st: InvState, m: array<byte>, w: Work, errBuf: U32) returns (failure: Option<Bytes>)
    requires errBuf + ERR_BUF <= m.Length
    modifies st, m
    ensures failure == if w.Ok? then None else Some(Received(w).text)
    ensures w.Ok? ==> st.View() == Next(old(st.View()), Act(w))
    ensures w.Err? ==> st.View() == Next(Next(old(st.View()), Act(w)), Read)
    ensures SameOutside(old(m[..]), m[..], errBuf, if w.Ok? then 0 else ERR_BUF)
  {
    var ok := st.Act(w);
    if ok == 0 {
      var text := ReadLastError(st, m, errBuf);
      return Some(text);
    }
    return None;
  }

  /** The guest gets exactly the host's bytes just when there are fewer than 2^32 - 1 of them. */
  lemma {:induction false} ResultRoundTrip(data: Option<Bytes>)
    ensures Received(Ok(data)) == Got(Data(data)) <==> |Data(data)| < 0xFFFF_FFFF
  {}

  /** An error without a text reads as "unknown error". */
  lemma {:induction false} EmptyErrorReads()
    ensures Received(Err([])).HostError? && |Received(Err([])).text| == |"unknown error"|
    ensures forall i | 0 <= i < |"unknown error"| :: Received(Err([])).text[i] as int == "unknown error"[i] as int
  {}

  /** The guest gets the first 4096 bytes of an error text, unless truncating its length to 32 bits leaves fewer. */
  lemma {:induction false} ErrorRoundTrip(text: Bytes)
    requires text != []
    ensures Received(Err(text)) == HostError(text[..if |text| < 4096 then |text| else 4096]) <==>
            |text| < 0x1_0000_0000 || |text| % 0x1_0000_0000 >= 4096
  {
    var n := Count(ERR_BUF, text);
    if |text| >= WORD && |text| % WORD < ERR_BUF {
      assert n == |text| % WORD;
      if n > 0 { assert |text[..n]| < ERR_BUF; }
    }
  }
}
