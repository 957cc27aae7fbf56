/** Process numbers: setpid, freepid, checkpid and allocpid of kernel/task/proc.c. */
module Pid {
  import opened Bytes
  import opened Bitmap

  const MAXPID: nat := 32768
  const RESERVEDPID: nat := 300

  /** pid_bitmap and last_pid. */
  class PidTable {
    const bitmap: array<u8>
    var lastPid: nat

    ghost predicate Valid()
      reads this, bitmap
    {
      bitmap.Length == BLKSZ && lastPid < MAXPID
    }

    /** pid is in use. */
    ghost predicate Taken(pid: nat)
      reads this, bitmap
      requires Valid() && pid < MAXPID
    {
      BmBit(bitmap[..], pid)
    }

    /** No number in use, none handed out yet. */
    constructor ()
      ensures Valid() && fresh(bitmap) && lastPid == 0 && forall p :: 0 <= p < MAXPID ==> !Taken(p)
    {
      bitmap := new u8[BLKSZ](_ => 0);
      lastPid := 0;
      new;
      forall p | 0 <= p < MAXPID ensures !Taken(p) {
        NoBits(p % 8);
      }
    }

    method CheckPid(pid: nat) returns (r: bool)
      requires Valid() && pid < MAXPID
      ensures r == Taken(pid)
    {
      r := Bit(bitmap[pid / 8], pid % 8);
    }

    /** setpid: that number is taken, no other changes. */
    method SetPid(pid: nat)
      requires Valid() && pid < MAXPID
      modifies bitmap
      ensures Valid() && bitmap[..] == BmSet(old(bitmap[..]), pid)
      ensures forall q :: 0 <= q < MAXPID ==> Taken(q) == (old(Taken(q)) || q == pid)
    {
      BmSetBits(bitmap[..], pid);
      ByteUpdate(bitmap[..], pid);
      ghost var after := BmSet(bitmap[..], pid);
      bitmap[pid / 8] := SetBit(bitmap[pid / 8], pid % 8);
      assert bitmap[..] == after;
    }

    /** freepid: that number is free, no other changes. */
    method FreePid(pid: nat)
      requires Valid() && pid < MAXPID
      modifies bitmap
      ensures Valid() && forall q :: 0 <= q < MAXPID ==> Taken(q) == (old(Taken(q)) && q != pid)
    {
      BmClearBits(bitmap[..], pid);
      ByteUpdate(bitmap[..], pid);
      ghost var after := BmClear(bitmap[..], pid);
      bitmap[pid / 8] := ClearBit(bitmap[pid / 8], pid % 8);
      assert bitmap[..] == after;
    }

    /** allocpid: -1 exactly when every number after the last one, and every unreserved number, is taken.  Otherwise
        the first free one in cyclic order after the last one, which is taken now; no other bit changes. */
    method AllocPid() returns (pid: int)
      requires Valid()
      modifies this`lastPid, bitmap
      ensures Valid()
      ensures pid == -1 <==> forall p :: (old(lastPid) < p < MAXPID || RESERVEDPID <= p < MAXPID) ==> old(Taken(p))
      ensures pid == -1 ==> bitmap[..] == old(bitmap[..]) && lastPid == old(lastPid)
      ensures pid != -1 ==>
                && 0 <= pid < MAXPID && !old(Taken(pid)) && lastPid == pid
                && (if pid > old(lastPid) then forall p :: old(lastPid) < p < pid ==> old(Taken(p))
                    else RESERVEDPID <= pid && (forall p :: old(lastPid) < p < MAXPID ==> old(Taken(p)))
                         && forall p :: RESERVEDPID <= p < pid ==> old(Taken(p)))
                && forall q :: 0 <= q < MAXPID ==> Taken(q) == (old(Taken(q)) || q == pid)
    {
      hide BmBit; hide BmSet;
      ghost var before, last := bitmap[..], lastPid;
      var cur := lastPid;
      ghost var laps := 0;
      for i := 0 to MAXPID
        invariant Valid() && lastPid == last && bitmap[..] == before && 0 <= cur < MAXPID
        invariant Probed(before, last, cur, i, laps)
      {
        cur := cur + 1;
        if cur >= MAXPID {
          cur := RESERVEDPID;
          laps := laps + 1;
        }
        var taken := CheckPid(cur);
        if !taken {
          SetPid(cur);
          lastPid := cur;
          BmSetBits(before, cur);
          return cur;
        }
      }
      AllProbed(before, last, cur, laps);
      return -1;
    }
  }

  /** What i probes after last have found taken, when the last of them was cur after this many wraps. */
  ghost predicate Probed(bm: Block, last: nat, cur: nat, i: nat, laps: nat)
    requires last < MAXPID && cur < MAXPID
  {
    if laps == 0 then cur == last + i && TakenUpTo(bm, last + 1, cur + 1)
    else
      && RESERVEDPID <= cur && i == MAXPID - last + (laps - 1) * (MAXPID - RESERVEDPID) + (cur - RESERVEDPID)
      && TakenUpTo(bm, last + 1, MAXPID)
      && TakenUpTo(bm, RESERVEDPID, if laps == 1 then cur + 1 else MAXPID)
  }

  ghost predicate TakenUpTo(bm: Block, from: nat, to: nat)
    requires to <= MAXPID
  {
    forall p :: from <= p < to ==> BmBit(bm, p)
  }

  /** A full round of probes passes over every candidate. */
  lemma AllProbed(bm: Block, last: nat, cur: nat, laps: nat)
    requires last < MAXPID && cur < MAXPID && Probed(bm, last, cur, MAXPID, laps)
    ensures TakenUpTo(bm, last + 1, MAXPID) && TakenUpTo(bm, RESERVEDPID, MAXPID)
  {
    hide BmBit;
    if laps == 1 {
      forall p | RESERVEDPID <= p < MAXPID ensures BmBit(bm, p) {
        if p > last {
          assert BmBit(bm, p);
        } else {
          assert p < cur + 1;
        }
      }
    }
  }

  lemma NoBits(k: nat)
    ensures !Bit(0, k)
  {
    if k > 0 {
      NoBits(k - 1);
    }
  }
}
