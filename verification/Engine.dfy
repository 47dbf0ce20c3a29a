// Crash recovery of the engine: the log's actions applied through the buffer pool.
module Engine {
  import opened Bytes
  import opened Layout
  import opened BufferPool
  import opened Wal
  import Recovery
  import Framing
  import LogRecord
  import System

  /** Copy an image over the front of a page. */
  method Patch(pool: Pool, p: PageId, img: seq<byte>)
    requires pool.Idle() && p < |pool.disk|
    modifies pool
    ensures pool.Idle() && Spilled(old(pool.disk), pool.disk, old(pool.View()))
    ensures pool.View() == old(pool.View())[p := Recovery.Overlay(old(pool.View())[p], img)]
    ensures forall i {:trigger pool.View()[p][i]} :: 0 <= i < PAGE_SIZE ==>
              pool.View()[p][i] == if i < |img| then img[i] else old(pool.View())[p][i]
  {
    forall i | 0 <= i < PAGE_SIZE
      ensures Recovery.Overlay(pool.View()[p], img)[i] == if i < |img| then img[i] else pool.View()[p][i]
    {
      Recovery.OverlayBytes(pool.View()[p], img, i);
    }
    pool.RoomWhenIdle();
    var o := pool.FetchPageMut(p);
    assert pool.View()[p] == pool.frames[pool.table[p]].value.data;
    pool.WritePage(p, Recovery.Overlay(pool.frames[pool.table[p]].value.data, img));
    o := pool.UnpinPage(p, true);
  }

  lemma ApplyTurn(pages: seq<Image>, acts: seq<Recovery.Action>, i: nat)
    requires i < |acts|
    ensures Recovery.ApplyAll(pages, acts[..i + 1]) == Recovery.Apply(Recovery.ApplyAll(pages, acts[..i]), acts[i])
    decreases i
  {
    if i > 0 {
      ApplyTurn(Recovery.Apply(pages, acts[0]), acts[1..], i - 1);
      assert acts[..i + 1][1..] == acts[1..][..i] && acts[..i][1..] == acts[1..][..i - 1];
    }
  }

  /** One of the two loops of recovery. */
  method ApplyActions(pool: Pool, acts: seq<Recovery.Action>)
    requires pool.Idle()
    modifies pool
    ensures pool.Idle() && |pool.disk| == |old(pool.disk)|
    ensures pool.View() == Recovery.ApplyAll(old(pool.View()), acts)
  {
    var numPages := |pool.disk|;
    for i := 0 to |acts|
      invariant pool.Idle() && |pool.disk| == numPages
      invariant pool.View() == Recovery.ApplyAll(old(pool.View()), acts[..i])
    {
      ApplyTurn(old(pool.View()), acts, i);
      if acts[i].0 < numPages {
        Patch(pool, acts[i].0, acts[i].1);
      }
    }
    assert acts[..|acts|] == acts;
  }

  lemma {:induction false} ApplyConcat(pages: seq<Image>, a: seq<Recovery.Action>, b: seq<Recovery.Action>)
    ensures Recovery.ApplyAll(pages, a + b) == Recovery.ApplyAll(Recovery.ApplyAll(pages, a), b)
    decreases |a|
  {
    if a == [] {
      assert a + b == b;
    } else {
      assert (a + b)[0] == a[0] && (a + b)[1..] == a[1..] + b;
      ApplyConcat(Recovery.Apply(pages, a[0]), a[1..], b);
    }
  }

  /** Redo, undo, write everything out and empty the log; nothing of that if there is nothing to do. */
  method Recover(pool: Pool, wal: WalManager)
    requires pool.Idle() && wal.Readable()
    modifies pool, wal
    ensures pool.Idle()
    ensures pool.View() == Recovery.Recovered(old(pool.View()), old(AbsAll(wal.OnFile())))
    ensures if old(Recovery.Actions(AbsAll(wal.OnFile()))) == []
            then pool.disk == old(pool.disk) && wal.file == old(wal.file) && wal.found == old(wal.found)
                 && wal.records == old(wal.records) && wal.durable == old(wal.durable)
                 && (old(wal.Valid()) ==> wal.Valid())
            else pool.disk == pool.View() && wal.Valid() && wal.found == [] && wal.records == []
  {
    var redo, undo, committed, aborted := wal.Recover();
    ghost var log := AbsAll(wal.OnFile());
    assert Recovery.Actions(log) == redo + undo;
    if redo == [] && undo == [] {
      return;
    }
    ApplyConcat(pool.View(), redo, undo);
    ApplyActions(pool, redo);
    ApplyActions(pool, undo);
    pool.FlushAll();
    wal.Truncate();
  }

  const POOL_CAPACITY: nat := 1024

  /** Open an existing database on the bytes and pages a crash has left. */
  method Reopen(bytes: seq<byte>, pages: seq<Image>, ghost c: Framing.Codec<LogRecord.Record>)
    returns (pool: Pool, wal: WalManager)
    requires LogRecord.LogCodec(c) && pages != []
    requires Framing.ReadAll(c, bytes).Log? && AllSliceable(Framing.ReadAll(c, bytes).records)
    ensures pool.Idle() && pool.View() == pool.disk
    ensures pool.View() == Recovery.Recovered(pages, AbsAll(Framing.ReadAll(c, bytes).records))
    ensures wal.Valid() && wal.codec == c && wal.records == []
    ensures wal.found == if Recovery.Actions(AbsAll(Framing.ReadAll(c, bytes).records)) == [] then bytes else []
    ensures fresh(pool) && fresh(wal) && pool.capacity == 1024
  {
    wal := new WalManager.Open(bytes, c);
    pool := new Pool(pages, POOL_CAPACITY);
    Recover(pool, wal);
  }

  // From bytes to pages: cut file and buffer anywhere behind what was flushed; reopening reads
  // a history whose recovery is the serial execution of all committed transactions if and only
  // if the pages that only aborted transactions wrote were restored on disk.
  lemma CrashAnywhere(wal: WalManager, init: seq<Image>, s: System.Sys, n: nat) returns (rs: seq<LogRecord.Record>)
    requires wal.Valid() && System.Inv(init, s) && wal.History() == s.log && wal.durable == s.flushed
    requires SoundLog(wal.codec, wal.found) && Recovery.Silent(AbsAll(Framing.ReadAll(wal.codec, wal.found).records))
    requires |wal.file| <= n <= |wal.file + wal.buffer|
    ensures Framing.ReadAll(wal.codec, (wal.file + wal.buffer)[..n]) == Framing.Log(rs) && AllSliceable(rs)
    ensures Recovery.Recovered(s.disk, AbsAll(rs)) == Recovery.Serial(init, s.log)
       <==> forall p: PageId {:trigger System.AbortedOnly(AbsAll(rs), p)} ::
              p < |init| && System.AbortedOnly(AbsAll(rs), p) ==> s.disk[p] == init[p]
  {
    var k := wal.AfterCrash(n);
    var before := Framing.ReadAll(wal.codec, wal.found).records;
    rs := before + wal.records[..k];
    DurableRead(wal.codec, wal.found, wal.records, k, wal.nextLsn);
    AllWellPrefix(wal.records, k);
    AllWellConcat(before, wal.records[..k]);
    CrashBehind(init, s, AbsAll(before), k);
  }

  lemma CrashBehind(init: seq<Image>, s: System.Sys, a: Recovery.History, k: nat)
    requires System.Inv(init, s) && s.flushed <= k <= |s.log| && Recovery.Silent(a)
    ensures var seen := a + s.log[..k];
            (Recovery.Recovered(s.disk, seen) == Recovery.Serial(init, s.log) <==>
             forall p: PageId {:trigger System.AbortedOnly(seen, p)} ::
               p < |init| && System.AbortedOnly(seen, p) ==> s.disk[p] == init[p])
  {
    System.CrashIff(init, s, k);
    KeptSilent(a, s.log, k);
    var b := s.log[..k];
    assert forall p: PageId {:trigger System.AbortedOnly(b, p)} ::
        System.AbortedOnly(a + b, p) <==> System.AbortedOnly(b, p);
  }

  // What was found in front changes neither the actions nor which pages only aborted transactions wrote.
  lemma KeptSilent(a: Recovery.History, log: Recovery.History, k: nat)
    requires Recovery.Silent(a) && Recovery.Lawful(log) && k <= |log|
    ensures Recovery.Actions(a + log[..k]) == Recovery.Actions(log[..k])
    ensures forall p {:trigger System.AbortedOnly(a + log[..k], p)} ::
              System.AbortedOnly(a + log[..k], p) <==> System.AbortedOnly(log[..k], p)
  {
    var b := log[..k];
    Recovery.EndsStay(log, k);
    Recovery.SilentSkips(a, b, 0);
    forall p: PageId ensures System.AbortedOnly(a + b, p) <==> System.AbortedOnly(b, p) {
      Recovery.SilentSkips(a, b, p);
      System.SilentWrites(a, b, p);
    }
  }
}
