/** nvimtutor's frame buffer: every byte of a frame is appended to one
    growable heap buffer and written to the terminal in a single flush. */
module FrameBuffer {
  import opened Bytes

  /** The first allocation, used when the buffer has never grown. */
  const INITIAL_CAP := 8192

  /** `fb_appendf` formats into `char tmp[1024]`. */
  const FORMAT_MAX := 1023

  /** Doubling `c` until it is at least `need`. */
  function Grow(c: nat, need: nat): (r: nat)
    requires c > 0
    ensures r >= c && r >= need
    ensures c >= need ==> r == c
    ensures c < need ==> r < 2 * need
    decreases need - c
  {
    if c >= need then c else Grow(2 * c, need)
  }

  /** The capacity after an append that needs `need` bytes (contents plus
      NUL): unchanged when they fit, otherwise the old capacity (or 8192
      when there is none) doubled until it covers `need`. */
  function NewCap(cap: nat, need: nat): nat
  {
    if need <= cap then cap else Grow(if cap == 0 then INITIAL_CAP else 2 * cap, need)
  }

  lemma NewCapCovers(cap: nat, need: nat)
    ensures NewCap(cap, need) >= need && NewCap(cap, need) >= cap
    ensures need > cap && cap > 0 && need <= 2 * cap ==> NewCap(cap, need) == 2 * cap
    ensures need > cap && cap == 0 && need <= INITIAL_CAP ==> NewCap(cap, need) == INITIAL_CAP
  {
  }

  /** A call `main` makes on the frame buffer; `fb_appendf` is an append
      of the already cut text. Realloc failures play no part here. */
  datatype Call = ResetCall | AppendCall(bytes: seq<byte>) | FlushCall | FreeCall

  /** No call among `calls` frees the buffer. */
  predicate NeverFrees(calls: seq<Call>)
  {
    forall i :: 0 <= i < |calls| ==> !calls[i].FreeCall?
  }

  /** The bytes the buffer counts after `calls`, none of them a free,
      starting from `pending`: a reset or a flush empties it, an append
      extends it. */
  function Unflushed(calls: seq<Call>, pending: seq<byte>): seq<byte>
    decreases |calls|
  {
    if calls == [] then pending
    else match calls[0]
      case AppendCall(b) => Unflushed(calls[1..], pending + b)
      case FreeCall => Unflushed(calls[1..], pending)
      case _ => Unflushed(calls[1..], [])
  }

  /** Calls made after `free(fbuf)`, with `fbuf_len` still counting
      `pending` bytes, that reach the freed memory: an append, which
      reallocates or writes through `fbuf`; another free; or a flush
      while the length is not zero, which writes from `fbuf`. A reset
      only clears the length, and a flush of an empty buffer writes
      nothing, so before the first append or free only that first flush
      can find bytes still counted. */
  predicate MisusedAfterFree(calls: seq<Call>, pending: seq<byte>)
  {
    (exists i :: 0 <= i < |calls| && (calls[i].AppendCall? || calls[i].FreeCall?)) ||
    (pending != [] && calls != [] && calls[0].FlushCall?)
  }

  /** Unflushed takes the calls one at a time. */
  lemma UnflushedCons(c: Call, rest: seq<Call>, pending: seq<byte>)
    ensures Unflushed([c] + rest, pending) == Unflushed(rest, Unflushed([c], pending))
  {
    assert ([c] + rest)[1..] == rest;
    assert [c][1..] == [];
  }

  /** The calls, made on a live buffer holding `pending`, reach freed
      memory: after the first free the rest of them misuse it. */
  predicate UsesFreed(calls: seq<Call>, pending: seq<byte>)
  {
    exists i :: 0 <= i < |calls| && calls[i].FreeCall? && NeverFrees(calls[..i]) &&
                MisusedAfterFree(calls[i + 1..], Unflushed(calls[..i], pending))
  }

  /** UsesFreed one call at a time: a first free hands the rest over to
      MisusedAfterFree, any other call moves the pending bytes on. */
  lemma UsesFreedStep(calls: seq<Call>, pending: seq<byte>)
    requires calls != []
    ensures calls[0].FreeCall? ==> (UsesFreed(calls, pending) <==> MisusedAfterFree(calls[1..], pending))
    ensures !calls[0].FreeCall? ==>
              (UsesFreed(calls, pending) <==> UsesFreed(calls[1..], Unflushed([calls[0]], pending)))
  {
    var more := calls[1..];
    var p' := Unflushed([calls[0]], pending);
    assert Unflushed(calls[..0], pending) == pending;
    assert calls[..0] == [];
    if calls[0].FreeCall? {
      if UsesFreed(calls, pending) {
        var i :| 0 <= i < |calls| && calls[i].FreeCall? && NeverFrees(calls[..i]) &&
                 MisusedAfterFree(calls[i + 1..], Unflushed(calls[..i], pending));
        assert i == 0;
      }
      if MisusedAfterFree(more, pending) {
        assert NeverFrees(calls[..0]);
      }
    } else {
      forall i | 0 < i <= |calls|
        ensures calls[..i] == [calls[0]] + more[..i - 1]
        ensures Unflushed(calls[..i], pending) == Unflushed(more[..i - 1], p')
        ensures NeverFrees(calls[..i]) <==> NeverFrees(more[..i - 1])
      {
        var m := more[..i - 1];
        var c := calls[..i];
        assert c == [calls[0]] + m;
        UnflushedCons(calls[0], m, pending);
        if NeverFrees(m) {
          forall j | 0 <= j < i ensures !c[j].FreeCall? {
            if j > 0 {
              assert c[j] == m[j - 1];
            }
          }
        }
        if NeverFrees(c) {
          forall j | 0 <= j < |m| ensures !m[j].FreeCall? {
            assert m[j] == c[j + 1];
          }
        }
      }
      if UsesFreed(calls, pending) {
        var i :| 0 <= i < |calls| && calls[i].FreeCall? && NeverFrees(calls[..i]) &&
                 MisusedAfterFree(calls[i + 1..], Unflushed(calls[..i], pending));
        assert i > 0;
        assert more[i - 1] == calls[i] && more[i - 1 + 1..] == calls[i + 1..];
      }
      if UsesFreed(more, p') {
        var i :| 0 <= i < |more| && more[i].FreeCall? && NeverFrees(more[..i]) &&
                 MisusedAfterFree(more[i + 1..], Unflushed(more[..i], p'));
        assert calls[i + 1] == more[i] && calls[i + 1 + 1..] == more[i + 1..];
      }
    }
  }

  /** The bytes of the appends among `calls`, in order. */
  function Appended(calls: seq<Call>): seq<byte>
  {
    if calls == [] then [] else (if calls[0].AppendCall? then calls[0].bytes else []) + Appended(calls[1..])
  }

  /** Appends and flushes only, the last call a flush. */
  predicate Batch(calls: seq<Call>)
  {
    calls != [] && calls[|calls| - 1].FlushCall? &&
    forall i :: 0 <= i < |calls| ==> calls[i].AppendCall? || calls[i].FlushCall?
  }

  /** The bytes a sequence of calls writes to the terminal, `pending`
      being the buffer's contents before the first and `live` whether
      `fbuf` has not been freed; `None` when a call reaches memory already
      freed, whose effect C leaves undefined. After a free nothing more is
      written. A batch on a live buffer writes the pending bytes and then
      every appended byte, whatever the flushes in between. */
  function Replay(calls: seq<Call>, pending: seq<byte>, live: bool): (r: Option<seq<byte>>)
    ensures live ==> (r.None? <==> UsesFreed(calls, pending))
    ensures !live ==> (r.None? <==> MisusedAfterFree(calls, pending))
    ensures !live && r.Some? ==> r.value == []
    ensures live && Batch(calls) ==> r == Some(pending + Appended(calls))
    decreases |calls|
  {
    if calls == [] then Some([])
    else
      var more := calls[1..];
      if !live then
        assert MisusedAfterFree(calls, pending) <==>
               calls[0].AppendCall? || calls[0].FreeCall? || (pending != [] && calls[0].FlushCall?) ||
               MisusedAfterFree(more, []) by {
          if exists i :: 0 <= i < |more| && (more[i].AppendCall? || more[i].FreeCall?) {
            var i :| 0 <= i < |more| && (more[i].AppendCall? || more[i].FreeCall?);
            assert calls[i + 1] == more[i];
          }
          if exists i :: 0 <= i < |calls| && (calls[i].AppendCall? || calls[i].FreeCall?) {
            var i :| 0 <= i < |calls| && (calls[i].AppendCall? || calls[i].FreeCall?);
            if i > 0 {
              assert more[i - 1] == calls[i];
            }
          }
        }
        match calls[0]
        case ResetCall => Replay(more, [], false)
        case FlushCall => if pending == [] then Replay(more, [], false) else None
        case _ => None
      else
        UsesFreedStep(calls, pending);
        assert Batch(calls) && more != [] ==> Batch(more) by {
          if Batch(calls) && more != [] {
            forall i | 0 <= i < |more| ensures more[i].AppendCall? || more[i].FlushCall? {
              assert more[i] == calls[i + 1];
            }
            assert more[|more| - 1] == calls[|calls| - 1];
          }
        }
        assert [calls[0]][1..] == [];
        match calls[0]
        case ResetCall => Replay(more, [], true)
        case AppendCall(b) =>
          assert pending + b + Appended(more) == pending + (b + Appended(more));
          Replay(more, pending + b, true)
        case FlushCall =>
          var r := Replay(more, [], true);
          assert more == [] ==> Appended(more) == [];
          assert [] + Appended(more) == Appended(more);
          if r.None? then None else Some(pending + r.value)
        case FreeCall => Replay(more, pending, false)
  }

  class Buffer {
    /** `fbuf[0 .. fbuf_len)` */
    var data: seq<byte>
    /** `fbuf_cap`; 0 before the first allocation. */
    var cap: nat
    /** Whether `fbuf` has not been passed to `free`. */
    var live: bool
    /** How many appends realloc has failed so far. */
    ghost var failures: nat

    /** The buffer has not been freed, and there is always room for the
        terminating NUL once anything was allocated. */
    ghost predicate Valid()
      reads this
    {
      live && ((cap == 0 && data == []) || |data| + 1 <= cap)
    }

    constructor ()
      ensures Valid() && data == [] && cap == 0 && failures == 0
    {
      data := [];
      cap := 0;
      live := true;
      failures := 0;
    }

    /** `free(fbuf)`. Nothing resets `fbuf_len` or `fbuf_cap`, so the
        buffer looks usable afterwards. The methods here require a live
        buffer; Replay says which later calls C would still allow. */
    method Release()
      requires Valid()
      modifies this
      ensures !live && data == old(data) && cap == old(cap) && failures == old(failures)
    {
      live := false;
    }

    /** `fb_reset` */
    method Reset()
      requires Valid()
      modifies this
      ensures Valid() && data == [] && cap == old(cap) && failures == old(failures)
    {
      data := [];
    }

    /** `fb_append`: grow by doubling when needed; when realloc fails (a
        choice the model leaves open) the append is dropped. */
    method Append(s: seq<byte>) returns (ok: bool)
      requires Valid()
      modifies this
      ensures Valid()
      ensures ok ==> data == old(data) + s && cap == NewCap(old(cap), old(|data|) + |s| + 1) && failures == old(failures)
      ensures !ok ==> data == old(data) && cap == old(cap) && old(|data|) + |s| + 1 > old(cap) && failures == old(failures) + 1
    {
      var need := |data| + |s| + 1;
      if need > cap {
        var nc := if cap != 0 then cap * 2 else INITIAL_CAP;
        ghost var start := nc;
        while nc < need
          invariant nc > 0 && Grow(nc, need) == Grow(start, need)
          decreases need - nc
        {
          nc := nc * 2;
        }
        var reallocOk: bool := *;
        if !reallocOk {
          failures := failures + 1;
          return false;
        }
        cap := nc;
      }
      data := data + s;
      return true;
    }

    /** `fb_appendf`: the formatted text passes through a 1024-byte buffer. */
    method Appendf(formatted: seq<byte>) returns (ok: bool)
      requires Valid()
      modifies this
      ensures Valid()
      ensures ok ==> data == old(data) + Take(formatted, FORMAT_MAX) && failures == old(failures)
      ensures !ok ==> data == old(data) && cap == old(cap) && failures == old(failures) + 1
    {
      ok := Append(Take(formatted, FORMAT_MAX));
    }

    /** `fb_flush`: the bytes written to the terminal, after which the
        buffer is empty and keeps its capacity. */
    method Flush() returns (written: seq<byte>)
      requires Valid()
      modifies this
      ensures Valid() && written == old(data) && data == [] && cap == old(cap) && failures == old(failures)
    {
      written := data;
      data := [];
    }
  }
}
