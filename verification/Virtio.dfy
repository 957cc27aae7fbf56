/** driver/virtio_mmio.c: the driver and the device as a step system over the memory they share (the split virtqueue
    of section 2.7 of VirtIO 1.2).  Either side may take its next step at any time. */
module Virtio {
  import opened Bytes
  import opened BlkCache

  const QSIZE: nat := 8
  const WRAP: nat := 0x1_0000

  /** What a descriptor's address stands for: the request header, the 512 bytes of the buffer from at, the status byte.
      */
  datatype Target = ToHeader | ToData(at: nat) | ToStatus | ToNothing

  datatype Desc = Desc(target: Target, len: nat, hasNext: bool, deviceWrites: bool, next: nat)

  /** type and sector of struct virt_blk_req. */
  datatype Header = Header(write: bool, sector: nat)

  /** One call of blkread or blkwrite. */
  datatype Job = Job(write: bool, no: nat)

  datatype Pc = Idle | Filling | Queueing | Publishing | Polling | Panicked

  datatype Device = Waiting | Answered | Confused

  /** The driver (pc, job, i, lastUsed), the memory it shares with the device (buf, hdr, status, desc, ring, avail,
      used), the device (dev, seen, disk), and two values no step reads: the disk and the buffer when the job began. */
  datatype Sys = Sys(
    pc: Pc, job: Job, i: nat, lastUsed: u16,
    buf: Block, hdr: Header, status: u8, desc: seq<Desc>, ring: seq<nat>, avail: u16, used: u16,
    dev: Device, seen: u16, disk: seq<seq<u8>>,
    start: seq<seq<u8>>, want: Block)

  datatype Event =
    | Begin(newJob: Job, data: Block) | Fill | Queue | Publish | Poll
    | Serve(code: u8) | PushUsed

  predicate Shape(s: Sys) {
    && |s.desc| == QSIZE && |s.ring| == QSIZE && s.i <= SECTORS_PER_BLOCK
    && |s.disk| == |s.start|
    && (forall k :: 0 <= k < |s.disk| ==> |s.disk[k]| == SECTOR && |s.start[k]| == SECTOR)
  }

  /** An index of either ring after one more entry: 16 bits, so it wraps. */
  function Next(x: u16): u16 {
    (x + 1) % WRAP
  }

  /** Begin asks for a block of the disk while the driver is idle; every other step follows from the state alone. */
  predicate Enabled(s: Sys, e: Event) {
    && Shape(s)
    && match e
       case Begin(job, _) => s.pc == Idle && (job.no + 1) * SECTORS_PER_BLOCK <= |s.disk|
       case Fill => s.pc == Filling && s.i < SECTORS_PER_BLOCK
       case Queue => s.pc == Queueing
       case Publish => s.pc == Publishing
       case Poll => s.pc == Polling && s.i < SECTORS_PER_BLOCK
       case Serve(_) => s.dev == Waiting && s.seen != s.avail
       case PushUsed => s.dev == Answered
  }

  function Apply(s: Sys, e: Event): (r: Sys)
    requires Enabled(s, e)
  {
    match e
    case Begin(job, data) => s.(pc := Filling, job := job, i := 0, buf := data, start := s.disk, want := data)
    case Fill => Filled(s)
    case Queue => s.(ring := s.ring[s.avail % QSIZE := 0], pc := Publishing)
    case Publish => s.(avail := Next(s.avail), pc := Polling)
    case Poll =>
      if s.used == s.lastUsed then s
      else if s.status != 0 then s.(pc := Panicked)
      else s.(i := s.i + 1, pc := if s.i + 1 == SECTORS_PER_BLOCK then Idle else Filling)
    case Serve(code) => Served(s, code)
    case PushUsed => s.(used := Next(s.used), seen := Next(s.seen), dev := Waiting)
  }

  /** virtio_blk_submit up to reading used.idx: header, status byte, and the chain of three descriptors. */
  function Filled(s: Sys): (r: Sys)
    requires Shape(s)
  {
    var sector := s.job.no * SECTORS_PER_BLOCK + s.i;
    s.(hdr := Header(s.job.write, sector), status := 0xff, lastUsed := s.used, pc := Queueing,
       desc := s.desc[0 := Desc(ToHeader, 16, true, false, 1)]
                     [1 := Desc(ToData(s.i * SECTOR), SECTOR, true, !s.job.write, 2)]
                     [2 := Desc(ToStatus, 1, false, true, 0)])
  }

  /** What the driver has put into the queue: descriptor 0 is the 16-byte header, 1 the 512 bytes of the sector in the
      buffer, which the device may write exactly when the job reads, 2 the status byte, which it may write and which
      ends the chain. */
  lemma RequestChain(s: Sys)
    requires Shape(s)
    ensures var d := Filled(s).desc;
            && d[0].target == ToHeader && d[0].len == 16 && !d[0].deviceWrites && d[0].hasNext && d[0].next == 1
            && d[1].target == ToData(512 * s.i) && d[1].len == 512 && d[1].hasNext && d[1].next == 2
            && (d[1].deviceWrites <==> !s.job.write)
            && d[2].target == ToStatus && d[2].len == 1 && d[2].deviceWrites && !d[2].hasNext
    ensures Filled(s).hdr.write == s.job.write && Filled(s).hdr.sector == 8 * s.job.no + s.i
  {
  }

  /** The device takes the next chain of the available ring and follows its descriptors.  A chain that is not a block
      request confuses it.  A request it cannot carry out, or that fails with this code, reports a status other than 0.
      */
  function Served(s: Sys, code: u8): (r: Sys)
    requires Shape(s)
  {
    var head := s.ring[s.seen % QSIZE];
    if !ChainOk(s.desc, head, s.hdr.write) then s.(dev := Confused)
    else
      var at := s.desc[s.desc[head].next].target.at;
      if code != 0 || s.hdr.sector >= |s.disk| then s.(dev := Answered, status := if code == 0 then 1 else code)
      else if s.hdr.write then
        s.(dev := Answered, status := 0, disk := s.disk[s.hdr.sector := s.buf[at..at + SECTOR]])
      else
        s.(dev := Answered, status := 0, buf := Splice(s.buf, at, s.disk[s.hdr.sector]))
  }

  /** head starts a chain header, data, status, with the data open to device writes exactly for a read. */
  predicate ChainOk(desc: seq<Desc>, head: nat, write: bool)
    requires |desc| == QSIZE
  {
    && head < QSIZE && desc[head].target == ToHeader && desc[head].hasNext && !desc[head].deviceWrites
    && desc[head].next < QSIZE
    && DataOk(desc, desc[desc[head].next], write)
  }

  predicate DataOk(desc: seq<Desc>, d: Desc, write: bool)
    requires |desc| == QSIZE
  {
    && d.target.ToData? && d.target.at + SECTOR <= BLKSZ && d.len == SECTOR && d.hasNext && d.deviceWrites == !write
    && d.next < QSIZE && desc[d.next].target == ToStatus && desc[d.next].deviceWrites && !desc[d.next].hasNext
  }

  /** Block no of a disk of sectors, as the cache sees it. */
  ghost function BlockOf(sectors: seq<seq<u8>>, no: nat): (r: seq<u8>)
    requires (no + 1) * SECTORS_PER_BLOCK <= |sectors|
    requires forall k :: 0 <= k < |sectors| ==> |sectors[k]| == SECTOR
  {
    Joined(sectors[no * SECTORS_PER_BLOCK..(no + 1) * SECTORS_PER_BLOCK])
  }

  /** Byte j of block no is byte j % 512 of sector 8 * no + j / 512. */
  lemma BytesOfBlock(sectors: seq<seq<u8>>, no: nat, j: nat)
    requires (no + 1) * 8 <= |sectors| && j < 4096
    requires forall k :: 0 <= k < |sectors| ==> |sectors[k]| == SECTOR
    ensures |BlockOf(sectors, no)| == 4096 && BlockOf(sectors, no)[j] == sectors[8 * no + j / 512][j % 512]
  {
    JoinedAt(sectors[no * 8..(no + 1) * 8], j);
  }

  /** The first n sectors of the job, and nothing else, have been carried out. */
  ghost predicate Carried(s: Sys, n: nat)
    requires Shape(s) && n <= SECTORS_PER_BLOCK && (s.job.no + 1) * SECTORS_PER_BLOCK <= |s.disk|
  {
    CarriedOut(s.job, s.buf, s.disk, s.start, s.want, n)
  }

  /** The buffer and the disk after n sectors of a job that began with the buffer want and the disk start. */
  ghost predicate CarriedOut(job: Job, buf: Block, disk: seq<seq<u8>>, start: seq<seq<u8>>, want: Block, n: nat)
    requires n <= SECTORS_PER_BLOCK && (job.no + 1) * SECTORS_PER_BLOCK <= |disk| == |start|
    requires forall k :: 0 <= k < |start| ==> |start[k]| == SECTOR
  {
    var first := job.no * SECTORS_PER_BLOCK;
    if job.write then
      && buf == want
      && (forall j :: 0 <= j < n ==> disk[first + j] == want[j * SECTOR..(j + 1) * SECTOR])
      && (forall k :: 0 <= k < |disk| && !(first <= k < first + n) ==> disk[k] == start[k])
    else
      && disk == start
      && buf[..n * SECTOR] == Joined(start[first..first + n])
      && buf[n * SECTOR..] == want[n * SECTOR..]
  }

  /** The request for sector i of the job is in the header and in descriptors 0 to 2. */
  predicate Prepared(s: Sys)
    requires Shape(s)
  {
    && s.i < SECTORS_PER_BLOCK
    && s.hdr == Header(s.job.write, s.job.no * SECTORS_PER_BLOCK + s.i)
    && ChainOk(s.desc, 0, s.job.write)
    && s.desc[0].next == 1 && s.desc[1].target == ToData(s.i * SECTOR)
  }

  /** The device has dealt with this very request: it is carried out exactly when the status byte says so. */
  ghost predicate Settled(s: Sys)
    requires Shape(s) && s.i < SECTORS_PER_BLOCK && (s.job.no + 1) * SECTORS_PER_BLOCK <= |s.disk|
  {
    Carried(s, if s.status == 0 then s.i + 1 else s.i)
  }

  ghost predicate Inv(s: Sys) {
    && Shape(s) && s.seen == s.used && s.dev != Confused
    && (s.pc != Polling && s.pc != Panicked ==> s.dev == Waiting && s.avail == s.used)
    && (s.pc != Idle || s.i > 0 ==> (s.job.no + 1) * SECTORS_PER_BLOCK <= |s.disk|)
    && match s.pc
       case Idle => s.i > 0 ==> s.i == SECTORS_PER_BLOCK && Carried(s, s.i)
       case Filling => s.i < SECTORS_PER_BLOCK && Carried(s, s.i)
       case Queueing => Prepared(s) && Carried(s, s.i) && s.status != 0 && s.lastUsed == s.used
       case Publishing => Prepared(s) && Carried(s, s.i) && s.status != 0 && s.lastUsed == s.used
         && s.ring[s.avail % QSIZE] == 0
       case Polling => Prepared(s) && Waits(s)
       case Panicked => Prepared(s) && s.dev == Waiting && s.avail == s.used && s.status != 0 && Carried(s, s.i)
  }

  /** One request is outstanding: not yet taken, answered but not yet reported, or reported. */
  ghost predicate Waits(s: Sys)
    requires Shape(s) && s.i < SECTORS_PER_BLOCK && (s.job.no + 1) * SECTORS_PER_BLOCK <= |s.disk|
  {
    if s.used == s.lastUsed then
      && s.avail == Next(s.used)
      && if s.dev == Waiting then s.status != 0 && Carried(s, s.i) && s.ring[s.seen % QSIZE] == 0 else Settled(s)
    else s.used == Next(s.lastUsed) && s.avail == s.used && s.dev == Waiting && Settled(s)
  }

  /** Both sides at rest, indices equal at any 16-bit value. */
  predicate AtRest(s: Sys) {
    Shape(s) && s.pc == Idle && s.i == 0 && s.dev == Waiting && s.seen == s.used == s.avail
  }

  // ------------------------------------------------------------------ every step keeps the invariant

  lemma CarryWrite(s: Sys, t: Sys)
    requires Shape(s) && Prepared(s) && s.job.write && (s.job.no + 1) * SECTORS_PER_BLOCK <= |s.disk| && Carried(s, s.i)
    requires t == s.(dev := Answered, status := 0,
             disk := s.disk[s.hdr.sector := s.buf[s.i * SECTOR..(s.i + 1) * SECTOR]])
    ensures Shape(t) && Carried(t, s.i + 1)
  {
    hide ChainOk;
    var first := s.job.no * SECTORS_PER_BLOCK;
    forall j | 0 <= j < s.i + 1 ensures t.disk[first + j] == t.want[j * SECTOR..(j + 1) * SECTOR] {
      if j < s.i {
        assert t.disk[first + j] == s.disk[first + j];
      }
    }
  }

  lemma CarryRead(s: Sys, t: Sys)
    requires Shape(s) && Prepared(s) && !s.job.write && (s.job.no + 1) * SECTORS_PER_BLOCK <= |s.disk|
             && Carried(s, s.i)
    requires t == s.(dev := Answered, status := 0, buf := Splice(s.buf, s.i * SECTOR, s.disk[s.hdr.sector]))
    ensures Shape(t) && Carried(t, s.i + 1)
  {
    hide ChainOk;
    var first, n := s.job.no * SECTORS_PER_BLOCK, s.i;
    var all := s.start[first..first + n + 1];
    assert all[..n] == s.start[first..first + n] && all[n] == s.start[first + n];
    assert t.buf[..(n + 1) * SECTOR] == s.buf[..n * SECTOR] + s.disk[s.hdr.sector];
    assert s.buf[(n + 1) * SECTOR..] == s.buf[n * SECTOR..][SECTOR..];
    assert s.want[(n + 1) * SECTOR..] == s.want[n * SECTOR..][SECTOR..];
  }

  /** Serving the one outstanding request carries out sector i of the job, or nothing and a failure status. */
  lemma ServeSettles(s: Sys, code: u8)
    requires Inv(s) && Enabled(s, Serve(code))
    ensures s.pc == Polling && Inv(Apply(s, Serve(code))) && Settled(Apply(s, Serve(code)))
  {
    hide Carried;
    var t := Apply(s, Serve(code));
    if t.status == 0 {
      if s.job.write {
        CarryWrite(s, t);
      } else {
        CarryRead(s, t);
      }
    } else {
      SameCarried(s, t);
    }
  }

  /** Carried looks at the job, the buffer and the disk alone. */
  lemma SameCarried(s: Sys, t: Sys)
    requires Shape(s) && Shape(t) && s.i <= SECTORS_PER_BLOCK && (s.job.no + 1) * SECTORS_PER_BLOCK <= |s.disk|
    requires s.job == t.job && s.buf == t.buf && s.disk == t.disk && s.start == t.start && s.want == t.want
    ensures forall n :: 0 <= n <= SECTORS_PER_BLOCK ==> Carried(s, n) == Carried(t, n)
  {
    hide CarriedOut;
  }

  lemma FillPrepares(s: Sys)
    requires Inv(s) && s.pc == Filling
    ensures Inv(Filled(s))
  {
    hide Carried;
    SameCarried(s, Filled(s));
  }

  /** The first step of a job: nothing carried out yet, indices still equal. */
  lemma BeginKeeps(s: Sys, job: Job, data: Block)
    requires Inv(s) && Enabled(s, Begin(job, data))
    ensures Inv(Apply(s, Begin(job, data)))
  {
    var t := Apply(s, Begin(job, data));
    assert t.start[job.no * SECTORS_PER_BLOCK..job.no * SECTORS_PER_BLOCK + 0] == [];
  }

  /** The poll loop ends only when the device has dealt with this very request, and then the driver goes on, or
      panics exactly when that request failed. */
  lemma PollAnswers(s: Sys)
    requires Inv(s) && Enabled(s, Poll) && s.used != s.lastUsed
    ensures s.dev == Waiting && s.avail == s.used && Settled(s)
    ensures Inv(Apply(s, Poll))
  {
    hide Carried; hide ChainOk;
    SameCarried(s, Apply(s, Poll));
  }

  lemma StepKeeps(s: Sys, e: Event)
    requires Inv(s) && Enabled(s, e)
    ensures Inv(Apply(s, e))
  {
    var t := Apply(s, e);
    match e
    case Begin(job, data) => BeginKeeps(s, job, data);
    case Fill => FillPrepares(s);
    case Serve(code) => ServeSettles(s, code);
    case Poll =>
      if s.used != s.lastUsed {
        PollAnswers(s);
      }
    case Queue => QueueKeeps(s);
    case Publish => PublishKeeps(s);
    case PushUsed => PushKeeps(s);
  }

  lemma QueueKeeps(s: Sys)
    requires Inv(s) && s.pc == Queueing
    ensures Inv(Apply(s, Queue))
  {
    hide Carried; hide ChainOk;
    SameCarried(s, Apply(s, Queue));
  }

  /** The new entry is the one the device takes next, also where the index wraps. */
  lemma PublishKeeps(s: Sys)
    requires Inv(s) && s.pc == Publishing
    ensures Inv(Apply(s, Publish))
  {
    hide Carried; hide ChainOk;
    SameCarried(s, Apply(s, Publish));
  }

  lemma PushKeeps(s: Sys)
    requires Inv(s) && Enabled(s, PushUsed)
    ensures Inv(Apply(s, PushUsed))
  {
    hide Carried; hide ChainOk;
    SameCarried(s, Apply(s, PushUsed));
  }

  // ------------------------------------------------------------------ whole runs

  /** The steps are enabled one after the other. */
  ghost predicate Legal(s: Sys, es: seq<Event>)
    decreases |es|
  {
    es == [] || (Enabled(s, es[0]) && Legal(Apply(s, es[0]), es[1..]))
  }

  ghost function Exec(s: Sys, es: seq<Event>): (r: Sys)
    requires Legal(s, es)
    decreases |es|
  {
    if es == [] then s else Exec(Apply(s, es[0]), es[1..])
  }

  /** Every interleaving, of any length, keeps the invariant. */
  lemma {:induction false} RunKeeps(s: Sys, es: seq<Event>)
    requires Inv(s) && Legal(s, es)
    ensures Inv(Exec(s, es))
    decreases |es|
  {
    hide Inv;
    if es != [] {
      StepKeeps(s, es[0]);
      RunKeeps(Apply(s, es[0]), es[1..]);
    }
  }

  /** From rest, whatever the interleaving: at most one request is outstanding; while the driver is not polling the
      used index equals the available index; and the device never meets a malformed chain. */
  lemma RunSafe(s: Sys, es: seq<Event>)
    requires AtRest(s) && Legal(s, es)
    ensures var t := Exec(s, es);
            && t.dev != Confused
            && (t.avail == t.used || t.avail == Next(t.used))
            && (t.pc != Polling ==> t.avail == t.used && t.dev == Waiting)
  {
    hide Carried;
    assert Inv(s);
    RunKeeps(s, es);
  }

  ghost predicate NoBegin(es: seq<Event>) {
    forall k :: 0 <= k < |es| ==> !es[k].Begin?
  }

  /** Only Begin changes the job and what the disk and the buffer were at its beginning. */
  lemma {:induction false} SameJob(s: Sys, es: seq<Event>)
    requires Legal(s, es) && NoBegin(es)
    ensures var t := Exec(s, es);
            && t.job == s.job && t.start == s.start && t.want == s.want && |t.disk| == |s.disk|
            && (s.pc != Idle || s.i > 0 ==> t.pc != Idle || t.i > 0)
    decreases |es|
  {
    if es != [] {
      assert !es[0].Begin?;
      SameJob(Apply(s, es[0]), es[1..]);
    }
  }

  /** The states a driver reaches by beginning this job and taking these steps, the job over. */
  ghost predicate Completes(s: Sys, job: Job, data: Block, es: seq<Event>) {
    && Inv(s) && Enabled(s, Begin(job, data)) && NoBegin(es)
    && Legal(Apply(s, Begin(job, data)), es)
    && Exec(Apply(s, Begin(job, data)), es).pc == Idle
  }

  /** blkwrite leaves the caller's data in the block, blkread the block in the caller's buffer, under every
      interleaving; no other sector of the disk changes. */
  lemma JobDone(s: Sys, job: Job, data: Block, es: seq<Event>, no: nat)
    requires Completes(s, job, data, es) && (no + 1) * SECTORS_PER_BLOCK <= |s.disk|
    ensures var t := Exec(Apply(s, Begin(job, data)), es);
            && Inv(t) && |t.disk| == |s.disk| && t.job == job
            && (forall k :: 0 <= k < |s.disk| && !(job.write && k / SECTORS_PER_BLOCK == job.no) ==>
               t.disk[k] == s.disk[k])
            && BlockOf(t.disk, no) == (if job.write && no == job.no then data else BlockOf(s.disk, no))
            && t.buf == if job.write then data else BlockOf(s.disk, job.no)
  {
    var b := Apply(s, Begin(job, data));
    var t := Exec(b, es);
    BeginKeeps(s, job, data);
    RunKeeps(b, es);
    SameJob(b, es);
    AllCarried(t, no);
  }

  /** All eight sectors carried out make the block. */
  lemma AllCarried(t: Sys, no: nat)
    requires Shape(t) && (t.job.no + 1) * SECTORS_PER_BLOCK <= |t.disk| && (no + 1) * SECTORS_PER_BLOCK <= |t.disk|
    requires Carried(t, SECTORS_PER_BLOCK)
    ensures forall k :: 0 <= k < |t.disk| && !(t.job.write && k / SECTORS_PER_BLOCK == t.job.no) ==>
            t.disk[k] == t.start[k]
    ensures BlockOf(t.disk, no) == if t.job.write && no == t.job.no then t.want else BlockOf(t.start, no)
    ensures t.buf == if t.job.write then t.want else BlockOf(t.start, t.job.no)
  {
    var first := t.job.no * SECTORS_PER_BLOCK;
    if !t.job.write {
      assert t.buf[..SECTORS_PER_BLOCK * SECTOR] == t.buf;
    } else if no == t.job.no {
      SplitJoined(t.want, t.disk[first..first + SECTORS_PER_BLOCK]);
      assert t.want[..SECTORS_PER_BLOCK * SECTOR] == t.want;
    } else {
      assert t.disk[no * SECTORS_PER_BLOCK..(no + 1) * SECTORS_PER_BLOCK] ==
             t.start[no * SECTORS_PER_BLOCK..(no + 1) * SECTORS_PER_BLOCK];
    }
  }

  /** Cutting data into sectors and joining them again gives the data back. */
  lemma {:induction false} SplitJoined(data: seq<u8>, ss: seq<seq<u8>>)
    requires |ss| * SECTOR <= |data|
    requires forall j :: 0 <= j < |ss| ==> ss[j] == data[j * SECTOR..(j + 1) * SECTOR]
    ensures Joined(ss) == data[..|ss| * SECTOR]
    decreases |ss|
  {
    if ss != [] {
      var m := |ss| - 1;
      SplitJoined(data, ss[..m]);
      assert data[..m * SECTOR] + data[m * SECTOR..(m + 1) * SECTOR] == data[..(m + 1) * SECTOR];
    }
  }

  /** blkwrite and then blkread, each under any interleaving: the block comes back as it was written, and every other
      block is as before. */
  lemma WriteThenRead(s: Sys, no: nat, data: Block, es: seq<Event>, junk: Block, es': seq<Event>, other: nat)
    requires Completes(s, Job(true, no), data, es)
    requires Completes(Exec(Apply(s, Begin(Job(true, no), data)), es), Job(false, no), junk, es')
    requires (other + 1) * SECTORS_PER_BLOCK <= |s.disk|
    ensures var t := Exec(Apply(Exec(Apply(s, Begin(Job(true, no), data)), es), Begin(Job(false, no), junk)), es');
            && |t.disk| == |s.disk| && Inv(t) && t.buf == data
            && (other != no ==> BlockOf(t.disk, other) == BlockOf(s.disk, other))
  {
    hide Inv;
    hide Carried;
    hide BlockOf;
    var m := Exec(Apply(s, Begin(Job(true, no), data)), es);
    JobDone(s, Job(true, no), data, es, no);
    JobDone(s, Job(true, no), data, es, other);
    JobDone(m, Job(false, no), junk, es', no);
    JobDone(m, Job(false, no), junk, es', other);
  }

  // ------------------------------------------------------------------ progress

  /** How many steps, of either side, until the job is over. */
  function Rank(s: Sys): (r: nat)
    requires s.i <= SECTORS_PER_BLOCK
  {
    if s.pc == Idle || s.pc == Panicked then 0
    else
      6 * (SECTORS_PER_BLOCK - s.i) +
      match s.pc
      case Filling => 6
      case Queueing => 5
      case Publishing => 4
      case _ => if s.used != s.lastUsed then 1 else if s.dev == Answered then 2 else 3
  }

  /** Every step other than beginning a job brings the end of the job nearer, or is a poll that finds the used index
      unmoved and changes nothing. */
  lemma StepCounts(s: Sys, e: Event)
    requires Inv(s) && Enabled(s, e) && !e.Begin?
    ensures Rank(Apply(s, e)) < Rank(s) || (e == Poll && s.used == s.lastUsed && Apply(s, e) == s)
  {
    hide Carried;
    hide ChainOk;
  }

  /** The step that is due in a state of a running job. */
  function Due(s: Sys): Event {
    match s.pc
    case Filling => Fill
    case Queueing => Queue
    case Publishing => Publish
    case _ => if s.used != s.lastUsed then Poll else if s.dev == Answered then PushUsed else Serve(0)
  }

  /** Until the job is over some step that brings its end nearer can be taken: no deadlock. */
  lemma Progress(s: Sys)
    requires Inv(s) && s.pc != Idle && s.pc != Panicked
    ensures Enabled(s, Due(s)) && !Due(s).Begin? && Rank(Apply(s, Due(s))) < Rank(s)
  {
    hide Carried;
    hide ChainOk;
    if Due(s).Serve? {
      assert s.seen != s.avail;
    }
    StepCounts(s, Due(s));
  }

  /** No request has failed so far. */
  predicate Clean(s: Sys) {
    s.pc != Panicked && (s.pc == Polling && (s.dev == Answered || s.used != s.lastUsed) ==> s.status == 0)
  }

  /** The panic is unreachable when the device fails no request: the driver never asks for a sector it lacks. */
  lemma {:induction false} NoFailureNoPanic(s: Sys, es: seq<Event>)
    requires Inv(s) && Legal(s, es) && Clean(s)
    requires forall k :: 0 <= k < |es| ==> (es[k].Serve? ==> es[k].code == 0)
    ensures Clean(Exec(s, es))
    decreases |es|
  {
    if es != [] {
      CleanStep(s, es[0]);
      StepKeeps(s, es[0]);
      NoFailureNoPanic(Apply(s, es[0]), es[1..]);
    }
  }

  lemma CleanStep(s: Sys, e: Event)
    requires Inv(s) && Enabled(s, e) && Clean(s) && (e.Serve? ==> e.code == 0)
    ensures Clean(Apply(s, e))
  {
    hide Carried;
  }
}
