/**
 Fetching a log page in several transfers (`__nvme_get_log_page`). The target answers each transfer
 from the page it holds at that moment, or refuses it; what it answers to the `t`-th transfer is an
 arbitrary function, so every result holds for every behaviour of the target.
 */
module LogPage {
  import opened Arith

  newtype byte = b: int | 0 <= b < 256

  datatype Page = Page(bytes: seq<byte>)

  /** Bytes beyond the page read as zero. */
  function PageByte(p: Page, i: int): byte
    requires 0 <= i
  {
    if i < |p.bytes| then p.bytes[i] else 0
  }

  datatype Reply = Served(page: Page) | Refused(err: int)

  /** What the caller sees of a refusal: never the 0 of success. */
  function ErrorCode(reply: Reply): (ret: int)
    requires reply.Refused?
    ensures ret != 0
  {
    if reply.err == 0 then -1 else reply.err
  }

  datatype Command = GetLog(offset: int, length: int, retain: bool)

  class Target {
    const serve: nat -> Reply
    var clock: nat                    // transfers so far
    ghost var commands: seq<Command>

    constructor (serve: nat -> Reply)
      ensures this.serve == serve && clock == 0 && commands == []
    {
      this.serve, clock, commands := serve, 0, [];
    }

    /** One transfer: an atomic copy of `length` bytes of the page held now. */
    method Get(offset: int, length: int, retain: bool, data: array<byte>, at: int) returns (ret: int)
      requires 0 <= offset && 0 <= length && 0 <= at && at + length <= data.Length
      modifies this, data
      ensures clock == old(clock) + 1 && commands == old(commands) + [GetLog(offset, length, retain)]
      ensures match serve(old(clock))
        case Refused(_) => ret == ErrorCode(serve(old(clock))) && data[..] == old(data[..])
        case Served(page) =>
          && ret == 0
          && (forall i :: at <= i < at + length ==> data[i] == PageByte(page, offset + (i - at)))
          && (forall i :: 0 <= i < data.Length && !(at <= i < at + length) ==> data[i] == old(data[i]))
    {
      var reply := serve(clock);
      clock := clock + 1;
      commands := commands + [GetLog(offset, length, retain)];
      match reply {
        case Refused(_) => return ErrorCode(reply);
        case Served(page) =>
          forall i | at <= i < at + length {
            data[i] := PageByte(page, offset + (i - at));
          }
          return 0;
      }
    }
  }

  // ---- The plan of transfers ----

  /** How many transfers a fetch of `len` bytes takes; an empty fetch still takes one. */
  function Count(len: int, xfer: int): (n: int)
    requires 0 <= len && 0 < xfer
    ensures 1 <= n
  {
    if len == 0 then 1 else Quot(len - 1, xfer) + 1
  }

  /** Transfer `c` starts inside the page exactly when it is one of the `Count` transfers. */
  lemma CountExactly(len: int, xfer: int, c: int)
    requires 0 < len && 0 < xfer && 0 <= c
    ensures c < Count(len, xfer) <==> Mul(c, xfer) < len
  {
    DivBound(len - 1, c, xfer);
  }

  /** Offset where transfer `c` starts. */
  function Start(len: int, xfer: int, c: int): int { if Mul(c, xfer) < len then Mul(c, xfer) else len }

  /** The retain flag is set on every transfer but the last, which carries the caller's choice. */
  function PlannedAt(len: int, xfer: int, rae: bool, c: int): Command
    requires 0 <= len && 0 < xfer
  {
    GetLog(Start(len, xfer, c), Start(len, xfer, c + 1) - Start(len, xfer, c), c < Count(len, xfer) - 1 || rae)
  }

  function Plan(len: int, xfer: int, rae: bool): (cmds: seq<Command>)
    requires 0 <= len && 0 < xfer
    ensures |cmds| == Count(len, xfer)
  {
    seq(Count(len, xfer), c => PlannedAt(len, xfer, rae, c))
  }

  /** The transfer that the loop computes at offset `c * xfer` is the one planned. */
  lemma NextTransfer(len: int, xfer: int, rae: bool, c: int)
    requires 0 <= len && 0 < xfer && 0 <= c < Count(len, xfer)
    ensures var off := Mul(c, xfer); var n := if len - off > xfer then xfer else len - off;
      && 0 <= off <= len && 0 <= n && off + n <= Mul(c + 1, xfer)
      && PlannedAt(len, xfer, rae, c) == GetLog(off, n, off + n != len || rae)
      && (off + n < len <==> c + 1 < Count(len, xfer))
      && (off + n < len ==> off + n == Mul(c + 1, xfer))
  {
    if len > 0 {
      CountExactly(len, xfer, c);
      CountExactly(len, xfer, c + 1);
    }
  }

  /** The plan covers the page from 0 to `len`, each transfer starting where the one before ended. */
  lemma PlanCovers(len: int, xfer: int, rae: bool)
    requires 0 < len && 0 < xfer
    ensures var p := Plan(len, xfer, rae);
      && p[0].offset == 0
      && (forall c :: 0 <= c < |p| ==> 0 < p[c].length <= xfer)
      && (forall c :: 0 <= c < |p| - 1 ==> p[c].offset + p[c].length == p[c + 1].offset && p[c].retain)
      && p[|p| - 1].offset + p[|p| - 1].length == len
      && p[|p| - 1].retain == rae
  {
    var p := Plan(len, xfer, rae);
    var n := |p|;
    forall c | 0 <= c < n ensures 0 < p[c].length <= xfer {
      CountExactly(len, xfer, c);
    }
    CountExactly(len, xfer, n);
    forall c | 0 <= c < n - 1 ensures p[c].offset + p[c].length == p[c + 1].offset && p[c].retain {
    }
  }

  predicate Moves(cmd: Command, i: int) { cmd.offset <= i < cmd.offset + cmd.length }

  /** Every byte is moved by exactly the transfer `Quot(i, xfer)`. */
  lemma ByteInTransfer(len: int, xfer: int, rae: bool, i: int)
    requires 0 < xfer && 0 <= i < len
    ensures 0 <= Quot(i, xfer) < Count(len, xfer)
    ensures forall c :: 0 <= c < Count(len, xfer) ==> (Moves(PlannedAt(len, xfer, rae, c), i) <==> c == Quot(i, xfer))
  {
    QuotRem(i, xfer);
    CountExactly(len, xfer, Quot(i, xfer));
    forall c | 0 <= c < Count(len, xfer)
      ensures Moves(PlannedAt(len, xfer, rae, c), i) <==> c == Quot(i, xfer)
    {
      CountExactly(len, xfer, c);
      DivBound(i, c, xfer);
      DivBound(i, c + 1, xfer);
    }
  }

  // ---- The fetch ----

  /** The first `n` bytes of `data` are those of a fetch whose first transfer was number `t0`. */
  ghost predicate Fetched(serve: nat -> Reply, t0: nat, xfer: int, data: seq<byte>, n: int)
    requires 0 < xfer && 0 <= n <= |data|
  {
    forall i :: 0 <= i < n ==> ByteFrom(serve, t0 + Quot(i, xfer), data[i], i)
  }

  /** `b` is byte `i` of the page that answered transfer `t`. */
  ghost predicate ByteFrom(serve: nat -> Reply, t: int, b: byte, i: int) {
    0 <= t && 0 <= i && serve(t).Served? && b == PageByte(serve(t).page, i)
  }

  ghost predicate AllServed(serve: nat -> Reply, t0: nat, n: int) {
    forall t: nat :: t0 <= t < t0 + n ==> serve(t).Served?
  }

  lemma FetchedStep(serve: nat -> Reply, t0: nat, xfer: int, before: seq<byte>, after: seq<byte>, c: nat, n: int)
    requires 0 < xfer && 0 <= Mul(c, xfer) <= n <= |before| == |after| && n <= Mul(c + 1, xfer)
    requires Fetched(serve, t0, xfer, before, Mul(c, xfer)) && serve(t0 + c).Served?
    requires forall i :: Mul(c, xfer) <= i < n ==> after[i] == PageByte(serve(t0 + c).page, i)
    requires forall i :: 0 <= i < Mul(c, xfer) ==> after[i] == before[i]
    ensures Fetched(serve, t0, xfer, after, n)
  {
    forall i | Mul(c, xfer) <= i < n ensures Quot(i, xfer) == c {
      DivModUnique(c, i - Mul(c, xfer), xfer);
    }
  }

  /**
   Fetches `dataLen` bytes in transfers of at most `xferLen`. On success the commands are the plan and
   every byte comes from the transfer that the plan assigns it; otherwise the first refusal is returned.
   */
  method GetLogPage(target: Target, rae: bool, xferLen: int, dataLen: int, data: array<byte>) returns (ret: int)
    requires 0 < xferLen && 0 <= dataLen <= data.Length
    modifies target, data
    ensures var n := Count(dataLen, xferLen); var t0 := old(target.clock);
      if ret == 0 then
        && target.clock == t0 + n && AllServed(target.serve, t0, n)
        && target.commands == old(target.commands) + Plan(dataLen, xferLen, rae)
        && Fetched(target.serve, t0, xferLen, data[..], dataLen)
      else
        && t0 < target.clock <= t0 + n && AllServed(target.serve, t0, target.clock - 1 - t0)
        && target.serve(target.clock - 1).Refused? && ret == ErrorCode(target.serve(target.clock - 1))
        && target.commands == old(target.commands) + Plan(dataLen, xferLen, rae)[..target.clock - t0]
    ensures data[dataLen..] == old(data[dataLen..])
  {
    hide Count, Quot, Rem, PlannedAt;
    var offset, retain, more := 0, true, true;
    ghost var t0, cmds0, plan, c := target.clock, target.commands, Plan(dataLen, xferLen, rae), 0;
    while more
      invariant 0 <= c <= |plan| && target.clock == t0 + c
      invariant if more then c < |plan| && offset == Mul(c, xferLen) <= dataLen else c == |plan| && offset == dataLen
      invariant more ==> retain
      invariant target.commands == cmds0 + plan[..c] && AllServed(target.serve, t0, c)
      invariant 0 <= offset && Fetched(target.serve, t0, xferLen, data[..], offset)
      invariant data[dataLen..] == old(data[dataLen..])
      decreases |plan| - c
    {
      NextTransfer(dataLen, xferLen, rae, c);
      var xfer := dataLen - offset;
      if xfer > xferLen {
        xfer := xferLen;
      }
      if offset + xfer == dataLen {
        retain := rae;
      }
      assert GetLog(offset, xfer, retain) == plan[c];
      ghost var before := data[..];
      ret := target.Get(offset, xfer, retain, data, offset);
      assert plan[..c + 1] == plan[..c] + [plan[c]];
      if ret != 0 {
        return ret;
      }
      FetchedStep(target.serve, t0, xferLen, before, data[..], c, offset + xfer);
      offset := offset + xfer;
      c := c + 1;
      more := offset < dataLen;
    }
    assert plan[..c] == plan;
    return 0;
  }
}
