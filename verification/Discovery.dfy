/**
 The discovery log: an optimistic read of header and records, checked against the generation counter
 and retried a bounded number of times (`nvmf_get_discovery_log`). The page layout is that of the
 Discovery Log Page, section 5.16.1.23 of the NVM Express Base Specification 2.0.
 */
module Discovery {
  import opened Arith
  import opened LogPage

  const HEADER: int := 1024
  const ENTRY: int := 1024
  const TRANSFER: int := 512
  const FIRST_FETCH: int := 0x100
  const TWO_32: int := 0x1_0000_0000

  /** Little-endian number. */
  function Le(bytes: seq<byte>): nat {
    if bytes == [] then 0 else bytes[0] as int + 256 * Le(bytes[1..])
  }

  function Genctr(log: seq<byte>): nat
    requires 16 <= |log|
  {
    Le(log[0..8])
  }

  function Numrec(log: seq<byte>): nat
    requires 16 <= |log|
  {
    Le(log[8..16])
  }

  /** The low `k` bytes of `n`, lowest first. */
  function LowBytes(n: nat, k: nat): (bytes: seq<byte>)
    ensures |bytes| == k
  {
    if k == 0 then [] else [(n % 256) as byte] + LowBytes(n / 256, k - 1)
  }

  function Pow256(k: nat): (p: nat)
    ensures 1 <= p
  {
    if k == 0 then 1 else 256 * Pow256(k - 1)
  }

  lemma {:induction false} LeOfLowBytes(n: nat, k: nat)
    requires n < Pow256(k)
    ensures Le(LowBytes(n, k)) == n
  {
    if k > 0 {
      LeOfLowBytes(n / 256, k - 1);
      assert LowBytes(n, k)[1..] == LowBytes(n / 256, k - 1);
    }
  }

  /** A log that starts with two 64-bit little-endian numbers has them as generation counter and record count. */
  lemma FieldsOfLog(genctr: nat, numrec: nat, rest: seq<byte>)
    requires genctr < Pow256(8) && numrec < Pow256(8)
    ensures var log := LowBytes(genctr, 8) + LowBytes(numrec, 8) + rest; Genctr(log) == genctr && Numrec(log) == numrec
  {
    var log := LowBytes(genctr, 8) + LowBytes(numrec, 8) + rest;
    assert log[0..8] == LowBytes(genctr, 8) && log[8..16] == LowBytes(numrec, 8);
    LeOfLowBytes(genctr, 8);
    LeOfLowBytes(numrec, 8);
  }

  function PageHeader(p: Page): seq<byte> { seq(16, i requires 0 <= i => PageByte(p, i)) }

  /** Buffer size for `numrec` records, stored in an `unsigned int`. */
  function LogSize(numrec: int): int { (HEADER + ENTRY * numrec) % TWO_32 }

  /** The buffer holds every record exactly when the 32-bit size does not wrap. */
  lemma LogSizeExactly(numrec: int)
    requires 0 <= numrec
    ensures LogSize(numrec) == HEADER + ENTRY * numrec <==> numrec < 0x40_0000 - 1
    ensures LogSize(numrec) == 0 <==> (numrec + 1) % 0x40_0000 == 0
    ensures LogSize(numrec) != 0 ==> HEADER <= LogSize(numrec)
  {
    var q, r := (numrec + 1) / 0x40_0000, (numrec + 1) % 0x40_0000;
    assert HEADER + ENTRY * numrec == q * TWO_32 + ENTRY * r;
  }

  /** A log with records has room for all of them exactly when their number is below 2^22 - 1. */
  ghost predicate HoldsAllRecordsExactly(log: seq<byte>) {
    && 16 <= |log|
    && (Numrec(log) != 0 ==> (|log| == HEADER + ENTRY * Numrec(log) <==> Numrec(log) < 0x40_0000 - 1))
  }

  /** A page that announces 2^22 records. */
  function WrappingPage(): Page { Page(seq(16, i => if i == 10 then 0x40 else 0)) }

  lemma {:induction false} LeZeros(bytes: seq<byte>)
    requires forall i :: 0 <= i < |bytes| ==> bytes[i] == 0
    ensures Le(bytes) == 0
  {
    if bytes != [] {
      LeZeros(bytes[1..]);
    }
  }

  /** For that page the 32-bit size is that of the header alone, without any of the records. */
  lemma WrappingPageTruncates()
    ensures Numrec(PageHeader(WrappingPage())) == 0x40_0000
    ensures LogSize(Numrec(PageHeader(WrappingPage()))) == HEADER
  {
    var b := PageHeader(WrappingPage())[8..16];
    LeZeros(b[3..]);
    assert b[2..][1..] == b[3..] && b[1..][1..] == b[2..];
    assert Le(b[2..]) == 0x40 && Le(b[1..]) == 256 * 0x40 && Le(b) == 256 * 256 * 0x40;
  }

  // ---- The target over time ----

  /** The generation counter strictly increases whenever the page changes. */
  ghost predicate Monotone(serve: nat -> Reply) {
    forall s: nat, t: nat :: s <= t && serve(s).Served? && serve(t).Served? ==>
      serve(s).page == serve(t).page || Genctr(PageHeader(serve(s).page)) < Genctr(PageHeader(serve(t).page))
  }

  /** Equal generations at both ends of a window mean one page throughout the window. */
  lemma OneGeneration(serve: nat -> Reply, s: nat, t: nat, u: nat)
    requires Monotone(serve) && s <= u <= t
    requires serve(s).Served? && serve(u).Served? && serve(t).Served?
    requires Genctr(PageHeader(serve(s).page)) == Genctr(PageHeader(serve(t).page))
    ensures serve(u).page == serve(s).page
  {
  }

  /** The first 16 bytes of `log` are the header of the page that answered transfer `t`. */
  ghost predicate HeaderFrom(serve: nat -> Reply, t: nat, log: seq<byte>) {
    16 <= |log| && serve(t).Served? && log[..16] == PageHeader(serve(t).page)
  }

  lemma HeaderFields(serve: nat -> Reply, t: nat, log: seq<byte>)
    requires HeaderFrom(serve, t, log)
    ensures serve(t).Served? && 16 <= |log|
    ensures Genctr(log) == Genctr(PageHeader(serve(t).page)) && Numrec(log) == Numrec(PageHeader(serve(t).page))
  {
    assert log[0..8] == log[..16][0..8] && log[8..16] == log[..16][8..16];
  }

  lemma FetchedHeader(serve: nat -> Reply, t: nat, log: seq<byte>, n: int)
    requires 16 <= n <= |log| && Fetched(serve, t, TRANSFER, log, n)
    ensures HeaderFrom(serve, t, log)
  {
    var l := log[..16];
    assert forall i :: 0 <= i < 16 ==> Quot(i, TRANSFER) == 0;
    assert ByteFrom(serve, t + Quot(0, TRANSFER), log[0], 0);
    forall i | 0 <= i < 16 ensures l[i] == PageHeader(serve(t).page)[i] {
      assert ByteFrom(serve, t + Quot(i, TRANSFER), log[i], i);
    }
  }

  /**
   The log is a snapshot taken while the target held the page of transfer `t`: generation counter,
   record count and every record are those of that one page. Only the reserved second half of the
   header may be younger.
   */
  ghost predicate SnapshotAt(serve: nat -> Reply, t: nat, log: seq<byte>) {
    && HeaderFrom(serve, t, log) && |log| == LogSize(Numrec(log))
    && forall i :: 0 <= i < |log| && (i < TRANSFER || HEADER <= i) ==> log[i] == PageByte(serve(t).page, i)
  }

  /** One pass of the loop whose two generation counters agree has read a snapshot. */
  lemma PassIsSnapshot(serve: nat -> Reply, t1: nat, t2: nat, full: seq<byte>, log: seq<byte>)
    requires Monotone(serve) && HEADER <= |full| == |log| && t2 == t1 + Count(|full|, TRANSFER)
    requires AllServed(serve, t1, Count(|full|, TRANSFER)) && Fetched(serve, t1, TRANSFER, full, |full|)
    requires Fetched(serve, t2, TRANSFER, log, HEADER) && log[HEADER..] == full[HEADER..]
    requires Genctr(full) == Genctr(log) && |log| == LogSize(Numrec(log))
    ensures SnapshotAt(serve, t1, log)
  {
    FetchedHeader(serve, t1, full, |full|);
    FetchedHeader(serve, t2, log, HEADER);
    HeaderFields(serve, t1, full);
    HeaderFields(serve, t2, log);
    OneGeneration(serve, t1, t2, t2);
    forall i | 0 <= i < |log| && (i < TRANSFER || HEADER <= i)
      ensures log[i] == PageByte(serve(t1).page, i)
    {
      if i < TRANSFER {
        assert Quot(i, TRANSFER) == 0;
        assert ByteFrom(serve, t2 + Quot(i, TRANSFER), log[i], i);
      } else {
        assert log[i] == log[HEADER..][i - HEADER] == full[HEADER..][i - HEADER] == full[i];
        assert ByteFrom(serve, t1 + Quot(i, TRANSFER), full[i], i);
        ByteInTransfer(|full|, TRANSFER, false, i);
        OneGeneration(serve, t1, t2, t1 + Quot(i, TRANSFER));
      }
    }
  }

  /** Generation counter and record count of the page that answers transfer `t`; 0 if the transfer is refused. */
  ghost function GenctrAt(serve: nat -> Reply, t: nat): nat {
    if serve(t).Served? then Genctr(PageHeader(serve(t).page)) else 0
  }

  ghost function NumrecAt(serve: nat -> Reply, t: nat): nat {
    if serve(t).Served? then Numrec(PageHeader(serve(t).page)) else 0
  }

  /** The target changed its page between two transfers of the window. */
  ghost predicate Changed(serve: nat -> Reply, lo: nat, hi: nat) {
    exists s: nat, t: nat :: lo <= s < t < hi && serve(s).Served? && serve(t).Served? && serve(s).page != serve(t).page
  }

  /**
   What a pass tells, given the header of transfer `th` that sized it: equal generation counters and the
   expected record count mean a snapshot, and anything else means the target changed.
   */
  lemma PassEnds(serve: nat -> Reply, th: nat, t1: nat, t2: nat, numrec: nat, full: seq<byte>, log: seq<byte>)
    requires Monotone(serve) && HEADER <= |full| == |log| == LogSize(numrec)
    requires th < t1 && t2 == t1 + Count(|full|, TRANSFER)
    requires serve(th).Served? && numrec == Numrec(PageHeader(serve(th).page))
    requires AllServed(serve, t1, Count(|full|, TRANSFER)) && Fetched(serve, t1, TRANSFER, full, |full|)
    requires Fetched(serve, t2, TRANSFER, log, HEADER) && log[HEADER..] == full[HEADER..]
    ensures HeaderFrom(serve, t2, log)
    ensures Genctr(full) == GenctrAt(serve, t1) && Genctr(log) == GenctrAt(serve, t2) && Numrec(log) == NumrecAt(serve, t2)
    ensures Genctr(full) != Genctr(log) || numrec != Numrec(log) ==> Changed(serve, th, t2 + 1)
    ensures Genctr(full) == Genctr(log) && numrec == Numrec(log) ==> SnapshotAt(serve, t1, log)
  {
    FetchedHeader(serve, t1, full, |full|);
    FetchedHeader(serve, t2, log, HEADER);
    HeaderFields(serve, t1, full);
    HeaderFields(serve, t2, log);
    if Genctr(full) == Genctr(log) && numrec == Numrec(log) {
      PassIsSnapshot(serve, t1, t2, full, log);
    }
  }

  lemma ChangedWiden(serve: nat -> Reply, lo: nat, hi: nat, lo': nat, hi': nat)
    requires lo' <= lo && hi <= hi'
    ensures Changed(serve, lo, hi) ==> Changed(serve, lo', hi')
  {
  }

  /** From transfer `lo` on the target always answers, and always from the same page. */
  ghost predicate HoldsStill(serve: nat -> Reply, lo: nat) {
    forall t: nat :: lo <= t ==> serve(t) == serve(lo) && serve(t).Served?
  }

  /** A page answered in the window gave the log its header and, when there are records, all of it. */
  ghost predicate AnsweredBy(serve: nat -> Reply, lo: nat, hi: nat, log: seq<byte>) {
    exists t: nat :: lo <= t < hi && HeaderFrom(serve, t, log) && (Numrec(log) != 0 ==> SnapshotAt(serve, t, log))
  }

  // ---- Passes ----

  ghost function SizeAt(serve: nat -> Reply, t: nat): (size: nat) { LogSize(NumrecAt(serve, t)) }

  /**
   One pass of the loop, by transfer numbers: the header that sized it, the start of its fetch of the
   whole log, the start of its second fetch of the header, and the first transfer after it.
   */
  datatype Pass = Pass(sized: nat, full: nat, check: nat, end: nat)

  ghost function PassFrom(serve: nat -> Reply, sized: nat, from: nat): Pass {
    var check := from + Count(SizeAt(serve, sized), TRANSFER);
    Pass(sized, from, check, check + Count(HEADER, TRANSFER))
  }

  /** The header in hand after the passes of a call that began at transfer `start`, and its next transfer. */
  ghost function HeaderAfter(start: nat, passes: seq<Pass>): nat {
    if passes == [] then start else passes[|passes| - 1].check
  }

  ghost function EndOf(start: nat, passes: seq<Pass>): nat {
    if passes == [] then start + Count(FIRST_FETCH, TRANSFER) else passes[|passes| - 1].end
  }

  /** Where the last pass, or the first fetch of the header when there is none, began. */
  ghost function LastBegin(start: nat, passes: seq<Pass>): nat {
    if passes == [] then start else passes[|passes| - 1].full
  }

  ghost predicate AnsweredAll(serve: nat -> Reply, lo: nat, hi: nat) {
    forall t: nat :: lo <= t < hi ==> serve(t).Served?
  }

  /** A pass answered throughout whose two generation counters differ, or agree. */
  ghost predicate Mismatch(serve: nat -> Reply, p: Pass) {
    AnsweredAll(serve, p.full, p.end) && GenctrAt(serve, p.full) != GenctrAt(serve, p.check)
  }

  ghost predicate Match(serve: nat -> Reply, p: Pass) {
    AnsweredAll(serve, p.full, p.end) && GenctrAt(serve, p.full) == GenctrAt(serve, p.check)
  }

  /** The header asks for a pass: there are records, and the size of the buffer is not zero. */
  ghost predicate AsksForPass(serve: nat -> Reply, t: nat) {
    serve(t).Served? && NumrecAt(serve, t) != 0 && SizeAt(serve, t) != 0
  }

  /** The passes follow one another without a gap, and each but the first is due to a mismatch in the one before. */
  ghost predicate Begun(serve: nat -> Reply, start: nat, passes: seq<Pass>) {
    if passes == [] then true
    else
      var init, p := passes[..|passes| - 1], passes[|passes| - 1];
      && Begun(serve, start, init) && (init != [] ==> Mismatch(serve, init[|init| - 1]))
      && AsksForPass(serve, HeaderAfter(start, init)) && p == PassFrom(serve, HeaderAfter(start, init), EndOf(start, init))
  }

  /** The passes so far let the call look at its header once more. */
  ghost predicate GoesOn(serve: nat -> Reply, maxRetries: int, passes: seq<Pass>) {
    |passes| < AtLeastOne(maxRetries) && (passes != [] ==> Mismatch(serve, passes[|passes| - 1]))
  }

  /**
   How a call that began at transfer `start` and stopped before transfer `end` went. The outcome is that of
   the last pass: another mismatch with no pass left, a match with or without the expected record count, a
   refused transfer; or the last header asks for no further pass.
   */
  ghost predicate Explains(serve: nat -> Reply, start: nat, end: nat, maxRetries: int, passes: seq<Pass>, outcome: Outcome) {
    var n, header := |passes|, HeaderAfter(start, passes);
    && Begun(serve, start, passes) && n <= AtLeastOne(maxRetries)
    && match outcome
       case Success =>
         && end == EndOf(start, passes) && AnsweredAll(serve, LastBegin(start, passes), end)
         && ((n > 0 && Match(serve, passes[n - 1]) && NumrecAt(serve, header) == NumrecAt(serve, passes[n - 1].sized))
             || (GoesOn(serve, maxRetries, passes) && NumrecAt(serve, header) == 0))
       case Again => end == EndOf(start, passes) && n == AtLeastOne(maxRetries) && Mismatch(serve, passes[n - 1])
       case BadSlot =>
         && end == EndOf(start, passes) && n > 0 && Match(serve, passes[n - 1])
         && NumrecAt(serve, header) != NumrecAt(serve, passes[n - 1].sized)
       case TransferError(ret) =>
         && LastBegin(start, passes) < end <= EndOf(start, passes) && AnsweredAll(serve, LastBegin(start, passes), end - 1)
         && serve(end - 1).Refused? && ret == ErrorCode(serve(end - 1))
       case NoMemory => passes == [] || Mismatch(serve, passes[n - 1])
       case Undefined =>
         && end == EndOf(start, passes) && AnsweredAll(serve, LastBegin(start, passes), end)
         && GoesOn(serve, maxRetries, passes) && NumrecAt(serve, header) != 0 && SizeAt(serve, header) == 0
  }

  /** The commands of the first header fetch and of the passes: only the fetch of the whole log releases the event. */
  ghost function PlannedCommands(serve: nat -> Reply, passes: seq<Pass>): seq<Command> {
    if passes == [] then Plan(FIRST_FETCH, TRANSFER, true)
    else
      var init, p := passes[..|passes| - 1], passes[|passes| - 1];
      PlannedCommands(serve, init) + Plan(SizeAt(serve, p.sized), TRANSFER, false) + Plan(HEADER, TRANSFER, true)
  }

  lemma {:induction false} PlannedLength(serve: nat -> Reply, start: nat, passes: seq<Pass>)
    requires Begun(serve, start, passes)
    ensures start + |PlannedCommands(serve, passes)| == EndOf(start, passes)
  {
    if passes != [] {
      PlannedLength(serve, start, passes[..|passes| - 1]);
    }
  }

  // ---- What an explanation means ----

  /** Every pass starts where the one before ended, from the header that one fetched last; all but the last mismatch. */
  lemma {:induction false} PassInOrder(serve: nat -> Reply, start: nat, passes: seq<Pass>, k: int)
    requires Begun(serve, start, passes) && 0 <= k < |passes|
    ensures Begun(serve, start, passes[..k]) && AsksForPass(serve, passes[k].sized)
    ensures start <= passes[k].sized < passes[k].full < passes[k].check < passes[k].end
    ensures passes[k] == PassFrom(serve, HeaderAfter(start, passes[..k]), EndOf(start, passes[..k]))
    ensures k < |passes| - 1 ==> Mismatch(serve, passes[k])
    ensures k < |passes| - 1 ==> passes[k].check <= passes[|passes| - 1].sized
  {
    var init := passes[..|passes| - 1];
    if k < |init| {
      assert init[k] == passes[k] && init[..k] == passes[..k];
      PassInOrder(serve, start, init, k);
      PassInOrder(serve, start, init, |init| - 1);
    } else {
      assert passes[..k] == init;
      if init != [] {
        PassInOrder(serve, start, init, |init| - 1);
      }
    }
  }

  /** A target that holds still from the header that sized the last pass on is never refused. */
  lemma StillFromLastPass(serve: nat -> Reply, start: nat, end: nat, maxRetries: int, passes: seq<Pass>, outcome: Outcome, lo: nat)
    requires Explains(serve, start, end, maxRetries, passes, outcome) && HoldsStill(serve, lo)
    requires lo <= (if passes == [] then start else passes[|passes| - 1].sized)
    ensures outcome.Success? || outcome.NoMemory? || outcome.Undefined?
  {
    if passes != [] {
      PassInOrder(serve, start, passes, |passes| - 1);
    }
  }

  /**
   A call whose `k`-th pass ends in a mismatch with another pass left tries again, and is not refused if the
   target holds still from the second header of that pass on.
   */
  lemma RetryOnStillTarget(serve: nat -> Reply, start: nat, end: nat, maxRetries: int, passes: seq<Pass>, outcome: Outcome,
                           lo: nat, k: int)
    requires Explains(serve, start, end, maxRetries, passes, outcome) && HoldsStill(serve, lo)
    requires 0 <= k < |passes| && Mismatch(serve, passes[k]) && k + 1 < AtLeastOne(maxRetries) && lo <= passes[k].check
    ensures outcome.Success? || outcome.NoMemory? || outcome.Undefined?
  {
    PassInOrder(serve, start, passes, k);
    if k < |passes| - 1 {
      StillFromLastPass(serve, start, end, maxRetries, passes, outcome, lo);
    }
  }

  /** EAGAIN means that the target changed during every one of the allowed passes. */
  lemma AgainMeansChanges(serve: nat -> Reply, start: nat, end: nat, maxRetries: int, passes: seq<Pass>, k: int)
    requires Explains(serve, start, end, maxRetries, passes, Again) && 0 <= k < AtLeastOne(maxRetries)
    ensures |passes| == AtLeastOne(maxRetries) && Changed(serve, passes[k].full, passes[k].check + 1)
  {
    PassInOrder(serve, start, passes, k);
    assert Mismatch(serve, passes[k]);
  }

  /** EBADSLT means that it changed between the header that sized the last pass and the start of that pass. */
  lemma BadSlotMeansChange(serve: nat -> Reply, start: nat, end: nat, maxRetries: int, passes: seq<Pass>)
    requires Monotone(serve) && Explains(serve, start, end, maxRetries, passes, BadSlot)
    ensures passes != [] && Changed(serve, passes[|passes| - 1].sized, passes[|passes| - 1].full + 1)
  {
    var p := passes[|passes| - 1];
    PassInOrder(serve, start, passes, |passes| - 1);
    OneGeneration(serve, p.full, p.check, p.check);
  }

  /** A pass that is not the first follows a mismatch; each follows a header that asks for it. */
  lemma PassHasCause(serve: nat -> Reply, start: nat, passes: seq<Pass>, n: int)
    requires Begun(serve, start, passes) && 0 <= n < |passes|
    ensures var before := passes[..n];
      AsksForPass(serve, HeaderAfter(start, before)) && (before != [] ==> Mismatch(serve, before[n - 1]))
  {
    hide AsksForPass, Mismatch;
    PassInOrder(serve, start, passes, n);
    if n > 0 {
      PassInOrder(serve, start, passes, n - 1);
    }
  }

  /** Of two explanations of calls that do not run out of memory none is shorter: it would have gone on. */
  lemma NotShorter(serve: nat -> Reply, start: nat, end: nat, end': nat, maxRetries: int,
                   passes: seq<Pass>, passes': seq<Pass>, outcome: Outcome, outcome': Outcome)
    requires Explains(serve, start, end, maxRetries, passes, outcome) && !outcome.NoMemory?
    requires Explains(serve, start, end', maxRetries, passes', outcome')
    ensures |passes'| <= |passes|
  {
    hide Begun, PassFrom, SizeAt;
    if |passes| < |passes'| {
      assert passes[..|passes|] == passes;
      SamePasses(serve, start, passes, passes', |passes|);
      PassHasCause(serve, start, passes', |passes|);
      if passes != [] {
        PassInOrder(serve, start, passes, |passes| - 1);
      }
    }
  }

  lemma {:induction false} SamePasses(serve: nat -> Reply, start: nat, passes: seq<Pass>, passes': seq<Pass>, n: int)
    requires Begun(serve, start, passes) && Begun(serve, start, passes') && 0 <= n <= |passes| && n <= |passes'|
    ensures passes[..n] == passes'[..n]
  {
    hide Begun, AsksForPass, Mismatch, PassFrom, HeaderAfter, EndOf;
    if n > 0 {
      SamePasses(serve, start, passes, passes', n - 1);
      PassInOrder(serve, start, passes, n - 1);
      PassInOrder(serve, start, passes', n - 1);
      assert passes[..n] == passes[..n - 1] + [passes[n - 1]] && passes'[..n] == passes'[..n - 1] + [passes'[n - 1]];
    }
  }

  /** What the target answers fixes the passes, the outcome and the last transfer of a call that does not run out of memory. */
  lemma OneExplanation(serve: nat -> Reply, start: nat, end: nat, end': nat, maxRetries: int,
                       passes: seq<Pass>, passes': seq<Pass>, outcome: Outcome, outcome': Outcome)
    requires Explains(serve, start, end, maxRetries, passes, outcome) && !outcome.NoMemory?
    requires Explains(serve, start, end', maxRetries, passes', outcome') && !outcome'.NoMemory?
    ensures passes == passes' && outcome == outcome' && end == end'
  {
    hide Begun, PassFrom, SizeAt;
    NotShorter(serve, start, end, end', maxRetries, passes, passes', outcome, outcome');
    NotShorter(serve, start, end', end, maxRetries, passes', passes, outcome', outcome);
    SamePasses(serve, start, passes, passes', |passes|);
    assert passes[..|passes|] == passes && passes'[..|passes|] == passes';
    if passes != [] {
      PassInOrder(serve, start, passes, |passes| - 1);
    }
  }

  // ---- The call ----

  datatype Outcome =
    | Success
    | TransferError(ret: int)
    | Again        // EAGAIN: the generation kept changing
    | BadSlot      // EBADSLT: the record count is not the one that was asked for
    | NoMemory     // ENOMEM
    | Undefined    // the size wrapped to zero: the C code then reads outside its buffer

  function AtLeastOne(n: int): int { if n < 1 then 1 else n }

  /** `nvme_discovery_log`: the first `len` bytes of the page, in transfers of at most 512 bytes. */
  method DiscoveryLog(target: Target, len: int, log: array<byte>, rae: bool) returns (ret: int)
    requires 0 <= len <= log.Length
    modifies target, log
    ensures var n, t0 := Count(len, TRANSFER), old(target.clock);
      && t0 < target.clock <= t0 + n && AnsweredAll(target.serve, t0, target.clock - 1)
      && target.commands == old(target.commands) + Plan(len, TRANSFER, rae)[..target.clock - t0]
      && if ret == 0 then
           target.clock == t0 + n && AllServed(target.serve, t0, n) && Fetched(target.serve, t0, TRANSFER, log[..], len)
         else
           target.serve(target.clock - 1).Refused? && ret == ErrorCode(target.serve(target.clock - 1))
    ensures log[len..] == old(log[len..])
  {
    ret := GetLogPage(target, rae, TRANSFER, len, log);
  }

  /** Where the loop of the call stands when it looks at its header, and what it has fetched for that. */
  ghost predicate Looking(serve: nat -> Reply, start: nat, clock: nat, passes: seq<Pass>, log: seq<byte>) {
    && Begun(serve, start, passes) && clock == EndOf(start, passes)
    && AnsweredAll(serve, LastBegin(start, passes), clock) && HeaderFrom(serve, HeaderAfter(start, passes), log)
  }

  lemma NothingIssued(serve: nat -> Reply, start: nat, cmds: seq<Command>, maxRetries: int)
    ensures Explains(serve, start, start, maxRetries, [], NoMemory)
    ensures Issued(cmds, cmds, PlannedCommands(serve, []), 0)
  {
  }

  lemma FirstIssued(serve: nat -> Reply, c0: seq<Command>, c1: seq<Command>, n: int)
    requires 0 <= n <= Count(FIRST_FETCH, TRANSFER) && c1 == c0 + Plan(FIRST_FETCH, TRANSFER, true)[..n]
    ensures Issued(c0, c1, PlannedCommands(serve, []), n)
    ensures n == Count(FIRST_FETCH, TRANSFER) ==> c1 == c0 + PlannedCommands(serve, [])
  {
  }

  lemma FirstLook(serve: nat -> Reply, start: nat, clock: nat, log: seq<byte>, maxRetries: int)
    requires clock == start + Count(FIRST_FETCH, TRANSFER) && AllServed(serve, start, Count(FIRST_FETCH, TRANSFER))
    requires FIRST_FETCH <= |log| && Fetched(serve, start, TRANSFER, log, FIRST_FETCH)
    ensures Looking(serve, start, clock, [], log) && GoesOn(serve, maxRetries, [])
  {
    FetchedHeader(serve, start, log, FIRST_FETCH);
  }

  /** The fields of the header in hand are those of the page it came from. */
  lemma LookingAt(serve: nat -> Reply, start: nat, clock: nat, passes: seq<Pass>, log: seq<byte>)
    requires Looking(serve, start, clock, passes, log)
    ensures 16 <= |log| && start < clock && HeaderFrom(serve, HeaderAfter(start, passes), log)
    ensures var t := HeaderAfter(start, passes);
      serve(t).Served? && Genctr(log) == GenctrAt(serve, t) && Numrec(log) == NumrecAt(serve, t)
    ensures Begun(serve, start, passes) && clock == EndOf(start, passes) == start + |PlannedCommands(serve, passes)|
    ensures AnsweredAll(serve, LastBegin(start, passes), clock)
  {
    PlannedLength(serve, start, passes);
    HeaderFields(serve, HeaderAfter(start, passes), log);
    if passes != [] {
      PassInOrder(serve, start, passes, |passes| - 1);
    }
  }

  /** The pass `p` comes next, and all commands before it have been issued. */
  ghost predicate PassReady(serve: nat -> Reply, start: nat, maxRetries: int, passes: seq<Pass>, p: Pass, issued: seq<Command>, cmds: seq<Command>) {
    && Begun(serve, start, passes + [p]) && GoesOn(serve, maxRetries, passes)
    && p.sized < p.full < p.check < p.end && HEADER <= SizeAt(serve, p.sized)
    && p.check == p.full + Count(SizeAt(serve, p.sized), TRANSFER) && p.end == p.check + Count(HEADER, TRANSFER)
    && cmds == issued + PlannedCommands(serve, passes) && start + |PlannedCommands(serve, passes)| == p.full
    && PlannedCommands(serve, passes + [p])
       == PlannedCommands(serve, passes) + Plan(SizeAt(serve, p.sized), TRANSFER, false) + Plan(HEADER, TRANSFER, true)
  }

  /** A header that asks for a pass begins one, if the call goes on. */
  lemma NextPass(serve: nat -> Reply, start: nat, clock: nat, maxRetries: int, passes: seq<Pass>, log: seq<byte>,
                 issued: seq<Command>, cmds: seq<Command>) returns (p: Pass)
    requires Looking(serve, start, clock, passes, log) && GoesOn(serve, maxRetries, passes)
    requires AsksForPass(serve, HeaderAfter(start, passes)) && cmds == issued + PlannedCommands(serve, passes)
    ensures 16 <= |log| && SizeAt(serve, p.sized) == LogSize(Numrec(log)) && NumrecAt(serve, p.sized) == Numrec(log)
    ensures p.full == clock && PassReady(serve, start, maxRetries, passes, p, issued, cmds)
  {
    hide Looking, LogSize, Genctr, Numrec, Plan, HeaderFrom, AnsweredAll, Mismatch;
    p := PassFrom(serve, HeaderAfter(start, passes), clock);
    LookingAt(serve, start, clock, passes, log);
    LogSizeExactly(Numrec(log));
    assert (passes + [p])[..|passes|] == passes;
    PassInOrder(serve, start, passes + [p], |passes|);
  }

  /** A pass answered throughout: the loop looks again, with what the pass tells. */
  lemma PassDone(serve: nat -> Reply, start: nat, maxRetries: int, passes: seq<Pass>, p: Pass, full: seq<byte>, log: seq<byte>)
    requires Monotone(serve) && Begun(serve, start, passes + [p]) && HEADER <= |full| == |log| == SizeAt(serve, p.sized)
    requires p.full < p.check < p.end == p.check + Count(HEADER, TRANSFER) && p.check == p.full + Count(|full|, TRANSFER)
    requires AllServed(serve, p.full, Count(|full|, TRANSFER)) && Fetched(serve, p.full, TRANSFER, full, |full|)
    requires AllServed(serve, p.check, Count(HEADER, TRANSFER)) && Fetched(serve, p.check, TRANSFER, log, HEADER)
    requires log[HEADER..] == full[HEADER..]
    ensures Looking(serve, start, p.end, passes + [p], log) && Genctr(full) == GenctrAt(serve, p.full)
    ensures if Genctr(full) != Genctr(log) then Mismatch(serve, p) else Match(serve, p)
    ensures Genctr(full) == Genctr(log) && NumrecAt(serve, p.sized) == Numrec(log) ==> SnapshotAt(serve, p.full, log)
  {
    hide Genctr, Numrec, LogSize, Count, Fetched, HeaderFrom, SnapshotAt;
    PassInOrder(serve, start, passes + [p], |passes|);
    PassEnds(serve, p.sized, p.full, p.check, NumrecAt(serve, p.sized), full, log);
  }

  /** What a successful call leaves in the buffer. */
  ghost predicate Delivered(serve: nat -> Reply, start: nat, passes: seq<Pass>, log: seq<byte>) {
    && HeaderFrom(serve, HeaderAfter(start, passes), log)
    && (Numrec(log) != 0 ==> passes != [] && SnapshotAt(serve, passes[|passes| - 1].full, log))
    && HoldsAllRecordsExactly(log)
  }

  lemma SnapshotDelivered(serve: nat -> Reply, start: nat, passes: seq<Pass>, log: seq<byte>)
    requires HeaderFrom(serve, HeaderAfter(start, passes), log)
    requires Numrec(log) != 0 ==> passes != [] && SnapshotAt(serve, passes[|passes| - 1].full, log)
    ensures Delivered(serve, start, passes, log)
  {
    LogSizeExactly(Numrec(log));
  }

  /** What a caller learns from the outcome alone, for a call over the transfers from `start` to `end`. */
  lemma OutcomeTells(serve: nat -> Reply, start: nat, end: nat, maxRetries: int, passes: seq<Pass>, outcome: Outcome, log: seq<byte>)
    requires Monotone(serve) && Explains(serve, start, end, maxRetries, passes, outcome)
    requires outcome.Success? ==> Delivered(serve, start, passes, log)
    ensures outcome.Success? ==> AnsweredBy(serve, start, end, log)
    ensures outcome.Again? || outcome.BadSlot? ==> Changed(serve, start, end)
    ensures HoldsStill(serve, start) ==> outcome.Success? || outcome.NoMemory? || outcome.Undefined?
  {
    hide SnapshotAt, HeaderFrom, Changed, PassFrom, Monotone, HoldsStill, Genctr, Numrec, GenctrAt, NumrecAt, LogSize;
    if passes != [] {
      PassInOrder(serve, start, passes, |passes| - 1);
    }
    if HoldsStill(serve, start) {
      StillFromLastPass(serve, start, end, maxRetries, passes, outcome, start);
    }
    if outcome.Again? {
      var p := passes[|passes| - 1];
      AgainMeansChanges(serve, start, end, maxRetries, passes, |passes| - 1);
      ChangedWiden(serve, p.full, p.check + 1, start, end);
    } else if outcome.BadSlot? {
      var p := passes[|passes| - 1];
      BadSlotMeansChange(serve, start, end, maxRetries, passes);
      ChangedWiden(serve, p.sized, p.full + 1, start, end);
    } else if outcome.Success? {
      DeliveredAnswers(serve, start, end, passes, log);
    }
  }

  lemma DeliveredAnswers(serve: nat -> Reply, start: nat, end: nat, passes: seq<Pass>, log: seq<byte>)
    requires Begun(serve, start, passes) && end == EndOf(start, passes) && Delivered(serve, start, passes, log)
    ensures AnsweredBy(serve, start, end, log)
  {
    hide SnapshotAt, PassFrom, LogSize;
    if passes != [] {
      PassInOrder(serve, start, passes, |passes| - 1);
    }
    if Numrec(log) != 0 {
      SnapshotHeader(serve, passes[|passes| - 1].full, log);
    }
  }

  lemma SnapshotHeader(serve: nat -> Reply, t: nat, log: seq<byte>)
    requires SnapshotAt(serve, t, log)
    ensures HeaderFrom(serve, t, log)
  {
  }

  /** The commands issued are a prefix of those of the passes. */
  ghost predicate Issued(before: seq<Command>, after: seq<Command>, planned: seq<Command>, n: int) {
    0 <= n <= |planned| && after == before + planned[..n]
  }

  /** Commands of a fetch that follows others. */
  lemma IssuedMore(c0: seq<Command>, c1: seq<Command>, c2: seq<Command>, before: seq<Command>, fetch: seq<Command>, rest: seq<Command>, n: int)
    requires c1 == c0 + before && 0 <= n <= |fetch| && c2 == c1 + fetch[..n]
    ensures Issued(c0, c2, before + fetch + rest, |before| + n)
    ensures n == |fetch| ==> c2 == c0 + (before + fetch)
  {
    assert (before + fetch + rest)[..|before| + n] == before + fetch[..n];
  }

  /** The loop has ended after a pass: by a match, or by a mismatch with no pass left. */
  ghost predicate Finished(serve: nat -> Reply, start: nat, maxRetries: int, passes: seq<Pass>, log: seq<byte>, numrec: nat, genctr: nat)
    requires 16 <= |log|
  {
    && 0 < |passes| <= AtLeastOne(maxRetries)
    && var p := passes[|passes| - 1];
    && numrec == NumrecAt(serve, p.sized)
    && (if genctr != Genctr(log) then |passes| == AtLeastOne(maxRetries) && Mismatch(serve, p) else Match(serve, p))
    && (genctr == Genctr(log) && numrec == Numrec(log) ==> SnapshotAt(serve, p.full, log))
  }

  /** How the call ends if the header it looks at asks for no pass, or the memory for one is missing. */
  lemma LookEnds(serve: nat -> Reply, start: nat, clock: nat, maxRetries: int, passes: seq<Pass>, log: seq<byte>)
    requires Looking(serve, start, clock, passes, log) && GoesOn(serve, maxRetries, passes) && 16 <= |log|
    ensures Numrec(log) == 0 ==> Explains(serve, start, clock, maxRetries, passes, Success) && Delivered(serve, start, passes, log)
    ensures Numrec(log) != 0 && LogSize(Numrec(log)) == 0 ==> Explains(serve, start, clock, maxRetries, passes, Undefined)
    ensures Numrec(log) != 0 && LogSize(Numrec(log)) != 0 ==> AsksForPass(serve, HeaderAfter(start, passes))
    ensures Explains(serve, start, clock, maxRetries, passes, NoMemory)
  {
    hide Begun, Delivered, SnapshotAt, HeaderFrom, Looking, PassFrom, NumrecAt, GenctrAt, Numrec, Genctr, LogSize;
    LookingAt(serve, start, clock, passes, log);
    if Numrec(log) == 0 {
      SnapshotDelivered(serve, start, passes, log);
    }
  }

  /** A refusal inside the last pass. */
  lemma RefusalEnds(serve: nat -> Reply, start: nat, end: nat, maxRetries: int, passes: seq<Pass>, p: Pass)
    requires Begun(serve, start, passes + [p]) && GoesOn(serve, maxRetries, passes)
    requires p.full < end <= p.end && AnsweredAll(serve, p.full, end - 1) && serve(end - 1).Refused?
    ensures Explains(serve, start, end, maxRetries, passes + [p], TransferError(ErrorCode(serve(end - 1))))
  {
    hide Begun;
  }

  /** Before the first header has come. */
  lemma FirstEnds(serve: nat -> Reply, start: nat, end: nat, maxRetries: int)
    requires start < end <= start + Count(FIRST_FETCH, TRANSFER) && AnsweredAll(serve, start, end - 1)
    ensures serve(end - 1).Refused? ==> Explains(serve, start, end, maxRetries, [], TransferError(ErrorCode(serve(end - 1))))
  {
  }

  lemma LoopEnds(serve: nat -> Reply, start: nat, clock: nat, maxRetries: int, passes: seq<Pass>, log: seq<byte>, numrec: nat, genctr: nat)
    requires Looking(serve, start, clock, passes, log) && 16 <= |log|
    requires Finished(serve, start, maxRetries, passes, log, numrec, genctr)
    ensures var outcome := if genctr != Genctr(log) then Again else if numrec != Numrec(log) then BadSlot else Success;
      && Explains(serve, start, clock, maxRetries, passes, outcome)
      && (outcome.Success? ==> Delivered(serve, start, passes, log))
  {
    hide Begun, Delivered, SnapshotAt, HeaderFrom, Looking, PassFrom, SizeAt, NumrecAt, GenctrAt, Numrec, Genctr;
    LookingAt(serve, start, clock, passes, log);
    if genctr == Genctr(log) && numrec == Numrec(log) {
      SnapshotDelivered(serve, start, passes, log);
    }
  }

  /** Nothing is issued but the plan, when the last pass is finished or the first header has come. */
  lemma AllIssued(serve: nat -> Reply, start: nat, clock: nat, passes: seq<Pass>, log: seq<byte>, before: seq<Command>, after: seq<Command>)
    requires Looking(serve, start, clock, passes, log) && after == before + PlannedCommands(serve, passes)
    ensures Issued(before, after, PlannedCommands(serve, passes), clock - start)
  {
    LookingAt(serve, start, clock, passes, log);
  }

  /**
   The fetches of one pass: the whole log, whose generation counter is kept, and the header once more. A
   refusal of either ends the call; otherwise the loop can look at the new header.
   */
  method FetchPass(target: Target, log: array<byte>, ghost start: nat, ghost maxRetries: int, ghost passes: seq<Pass>, ghost p: Pass,
                   ghost issued: seq<Command>)
    returns (ret: int, genctr: nat)
    requires Monotone(target.serve) && PassReady(target.serve, start, maxRetries, passes, p, issued, target.commands)
    requires target.clock == p.full && log.Length == SizeAt(target.serve, p.sized)
    modifies target, log
    ensures start <= p.full < target.clock && 16 <= log.Length
    ensures ret != 0 ==>
      && Explains(target.serve, start, target.clock, maxRetries, passes + [p], TransferError(ret))
      && Issued(issued, target.commands, PlannedCommands(target.serve, passes + [p]), target.clock - start)
    ensures ret == 0 ==>
      && Looking(target.serve, start, target.clock, passes + [p], log[..])
      && target.commands == issued + PlannedCommands(target.serve, passes + [p])
      && (if genctr != Genctr(log[..]) then Mismatch(target.serve, p) else Match(target.serve, p))
      && (genctr == Genctr(log[..]) && NumrecAt(target.serve, p.sized) == Numrec(log[..]) ==>
            SnapshotAt(target.serve, p.full, log[..]))
  {
    hide Begun, SnapshotAt, HeaderFrom, Fetched, Monotone, Genctr, Numrec, Count, SizeAt, Plan, Looking, Explains, Issued,
      PlannedCommands, GoesOn, Match, Mismatch, AllServed;
    ghost var serve, planned, whole, header :=
      target.serve, PlannedCommands(target.serve, passes), Plan(log.Length, TRANSFER, false), Plan(HEADER, TRANSFER, true);
    ghost var cmds1 := target.commands;
    assert PlannedCommands(serve, passes + [p]) == planned + whole + header;
    genctr := 0;
    ret := DiscoveryLog(target, log.Length, log, false);
    IssuedMore(issued, cmds1, target.commands, planned, whole, header, target.clock - p.full);
    if ret != 0 {
      RefusalEnds(serve, start, target.clock, maxRetries, passes, p);
      return;
    }
    ghost var full, cmds2 := log[..], target.commands;
    genctr := Genctr(log[..]);
    ret := DiscoveryLog(target, HEADER, log, true);
    IssuedMore(issued, cmds2, target.commands, planned + whole, header, [], target.clock - p.check);
    assert planned + whole + header + [] == planned + whole + header;
    if ret != 0 {
      AnsweredBoth(serve, p.full, p.check, target.clock - 1);
      RefusalEnds(serve, start, target.clock, maxRetries, passes, p);
      return;
    }
    PassDone(serve, start, maxRetries, passes, p, full, log[..]);
  }

  lemma AnsweredBoth(serve: nat -> Reply, lo: nat, mid: nat, hi: nat)
    requires lo <= mid <= hi && AllServed(serve, lo, mid - lo) && AnsweredAll(serve, mid, hi)
    ensures AnsweredAll(serve, lo, hi)
  {
  }

  /**
   Reads the discovery log. `Explains` says how the call went, whatever the target did between transfers;
   a success with records is a snapshot of one generation.
   */
  method GetDiscoveryLog(target: Target, maxRetries: int) returns (outcome: Outcome, log: array<byte>, ghost passes: seq<Pass>)
    requires Monotone(target.serve)
    modifies target
    ensures old(target.clock) <= target.clock
    ensures Explains(target.serve, old(target.clock), target.clock, maxRetries, passes, outcome)
    ensures Issued(old(target.commands), target.commands, PlannedCommands(target.serve, passes), target.clock - old(target.clock))
    ensures outcome.Success? ==> Delivered(target.serve, old(target.clock), passes, log[..])
  {
    hide Begun, Delivered, SnapshotAt, HeaderFrom, Fetched, Monotone, Genctr, Numrec, GenctrAt, NumrecAt, Count, LogSize, Plan, Looking, PassFrom, Explains, Issued, PlannedCommands, EndOf, LastBegin, HeaderAfter, AsksForPass, Match, Mismatch, AllServed, PassReady, SizeAt;
    ghost var serve, start, cmds0 := target.serve, target.clock, target.commands;
    passes := [];
    log := new byte[HEADER](_ => 0);
    NothingIssued(serve, start, cmds0, maxRetries);
    if * {
      return NoMemory, log, passes;
    }
    var ret := DiscoveryLog(target, FIRST_FETCH, log, true);
    FirstIssued(serve, cmds0, target.commands, target.clock - start);
    FirstEnds(serve, start, target.clock, maxRetries);
    if ret != 0 {
      return TransferError(ret), log, passes;
    }
    FirstLook(serve, start, target.clock, log[..], maxRetries);
    var numrec, genctr, retries, more := 0, 0, 0, true;
    while more
      invariant 16 <= log.Length && fresh(log) && start <= target.clock && Looking(serve, start, target.clock, passes, log[..])
      invariant target.commands == cmds0 + PlannedCommands(serve, passes)
      invariant more ==> retries == |passes| < AtLeastOne(maxRetries) && GoesOn(serve, maxRetries, passes)
      invariant !more ==> Finished(serve, start, maxRetries, passes, log[..], numrec, genctr)
      decreases more, AtLeastOne(maxRetries) - retries
    {
      LookEnds(serve, start, target.clock, maxRetries, passes, log[..]);
      AllIssued(serve, start, target.clock, passes, log[..], cmds0, target.commands);
      numrec := Numrec(log[..]);
      genctr := Genctr(log[..]);
      if numrec == 0 {
        return Success, log, passes;
      }
      var size := LogSize(numrec);
      if size == 0 {
        return Undefined, log, passes;
      }
      if * {
        return NoMemory, log, passes;
      }
      ghost var p := NextPass(serve, start, target.clock, maxRetries, passes, log[..], cmds0, target.commands);
      log := new byte[size](_ => 0);
      ret, genctr := FetchPass(target, log, start, maxRetries, passes, p, cmds0);
      passes := passes + [p];
      if ret != 0 {
        return TransferError(ret), log, passes;
      }
      more := false;
      if genctr != Genctr(log[..]) {
        retries := retries + 1;
        more := retries < maxRetries;
      }
    }
    LoopEnds(serve, start, target.clock, maxRetries, passes, log[..], numrec, genctr);
    AllIssued(serve, start, target.clock, passes, log[..], cmds0, target.commands);
    if genctr != Genctr(log[..]) {
      return Again, log, passes;
    } else if numrec != Numrec(log[..]) {
      return BadSlot, log, passes;
    }
    return Success, log, passes;
  }
}
