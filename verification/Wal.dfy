/** The write-ahead log: appending, re-opening after a crash, and recovery. */
module Wals {
  import opened Seqs

  /** A page of a table or index file. */
  datatype Key = Key(file: string, page: nat)

  /** The MVCC header of a stored row. */
  datatype Header = Header(xmin: nat, xmax: nat)

  /** An after-image: the row headers on the page, and everything else. */
  datatype Image = Image(rows: seq<Header>, body: int)

  datatype Kind = BeginRecord | WriteRecord | CommitRecord | RollbackRecord

  datatype Record = Record(lsn: nat, xid: nat, kind: Kind, key: Key, image: Image)

  const NO_KEY := Key("", 0)
  const NO_IMAGE := Image([], 0)
  const NAME_SIZE := 32

  /** encodeRecord keeps the first 32 bytes of a file name. */
  function Cut(name: string): string {
    if |name| > NAME_SIZE then name[..NAME_SIZE] else name
  }

  // ---------------------------------------------------------------- meaning of a log

  /** The transactions with a commit record. */
  function Committed(log: seq<Record>): set<nat> {
    if log == [] then {} else
    Committed(log[..|log| - 1]) + if log[|log| - 1].kind == CommitRecord then {log[|log| - 1].xid} else {}
  }

  predicate Applies(r: Record, done: set<nat>) {
    r.kind == WriteRecord && r.xid in done
  }

  /** The pages after replaying, in log order, the writes of the transactions in done. */
  function Replay(log: seq<Record>, done: set<nat>): map<Key, Image> {
    if log == [] then map[] else
    var m, r := Replay(log[..|log| - 1], done), log[|log| - 1];
    if Applies(r, done) then m[r.key := r.image] else m
  }

  /** What a log makes of the pages it speaks of. */
  function Images(log: seq<Record>): map<Key, Image> {
    Replay(log, Committed(log))
  }

  lemma {:induction false} ReplayConcat(a: seq<Record>, b: seq<Record>, done: set<nat>)
    ensures Replay(a + b, done) == Replay(a, done) + Replay(b, done)
  {
    if b == [] {
      assert a + b == a;
    } else {
      ReplayConcat(a, b[..|b| - 1], done);
      assert (a + b)[..|a + b| - 1] == a + b[..|b| - 1] && (a + b)[|a + b| - 1] == b[|b| - 1];
    }
  }

  lemma {:induction false} CommittedConcat(a: seq<Record>, b: seq<Record>)
    ensures Committed(a + b) == Committed(a) + Committed(b)
  {
    if b == [] {
      assert a + b == a;
    } else {
      CommittedConcat(a, b[..|b| - 1]);
      assert (a + b)[..|a + b| - 1] == a + b[..|b| - 1] && (a + b)[|a + b| - 1] == b[|b| - 1];
    }
  }

  /** Replay only looks at transactions that write in the log. */
  lemma {:induction false} ReplayIgnores(log: seq<Record>, done: set<nat>, xid: nat)
    requires forall i :: 0 <= i < |log| && log[i].kind == WriteRecord ==> log[i].xid != xid
    ensures Replay(log, done + {xid}) == Replay(log, done)
  {
    if log != [] {
      ReplayIgnores(log[..|log| - 1], done, xid);
    }
  }

  /** Record i is the last write of page k by a transaction with a commit record. */
  ghost predicate LastWrite(log: seq<Record>, k: Key, i: nat) {
    && i < |log| && CommittedWrite(log, k, i)
    && forall j :: i < j < |log| ==> !CommittedWrite(log, k, j)
  }

  ghost predicate CommittedWrite(log: seq<Record>, k: Key, i: nat)
    requires i < |log|
  {
    log[i].kind == WriteRecord && log[i].key == k && HasCommit(log, log[i].xid)
  }

  ghost predicate HasCommit(log: seq<Record>, xid: nat) {
    exists c :: 0 <= c < |log| && log[c].kind == CommitRecord && log[c].xid == xid
  }

  lemma {:induction false} CommittedIff(log: seq<Record>, xid: nat)
    ensures xid in Committed(log) <==> HasCommit(log, xid)
  {
    if log != [] {
      var init := log[..|log| - 1];
      CommittedIff(init, xid);
      assert forall c :: 0 <= c < |init| ==> init[c] == log[c];
    }
  }

  lemma {:induction false} ReplayHas(log: seq<Record>, done: set<nat>, k: Key)
    ensures k in Replay(log, done) <==> exists i :: 0 <= i < |log| && Applies(log[i], done) && log[i].key == k
  {
    if log != [] {
      var init := log[..|log| - 1];
      ReplayHas(init, done, k);
      assert forall c :: 0 <= c < |init| ==> init[c] == log[c];
    }
  }

  lemma {:induction false} ReplayLast(log: seq<Record>, done: set<nat>, i: nat)
    requires i < |log| && Applies(log[i], done) && forall j :: i < j < |log| ==> !(Applies(log[j], done) && log[j].key == log[i].key)
    ensures log[i].key in Replay(log, done) && Replay(log, done)[log[i].key] == log[i].image
  {
    hide Applies;
    if i < |log| - 1 {
      ReplayLast(log[..|log| - 1], done, i);
    }
  }

  /** The image of a page is the one its last committed write logged. */
  lemma {:induction false} ImagesAreLast(log: seq<Record>, k: Key)
    ensures k in Images(log) <==> exists i :: 0 <= i < |log| && CommittedWrite(log, k, i)
    ensures forall i: nat :: LastWrite(log, k, i) ==> Images(log)[k] == log[i].image
  {
    hide Replay, Committed, HasCommit;
    ReplayHas(log, Committed(log), k);
    forall i | 0 <= i < |log| ensures Applies(log[i], Committed(log)) && log[i].key == k <==> CommittedWrite(log, k, i) {
      CommittedIff(log, log[i].xid);
    }
    forall i: nat | LastWrite(log, k, i) ensures Images(log)[k] == log[i].image {
      ReplayLast(log, Committed(log), i);
    }
  }

  // ---------------------------------------------------------------- counters

  /** LSNs grow with the position in the log, and the counters are ahead of it. */
  ghost predicate Counted(log: seq<Record>, nextLSN: nat, nextXID: nat) {
    && nextLSN >= 1 && nextXID >= 1
    && (forall i :: 0 <= i < |log| ==> 1 <= log[i].lsn < nextLSN && log[i].xid < nextXID)
    && (forall i, j :: 0 <= i < j < |log| ==> log[i].lsn < log[j].lsn)
  }

  /** LSNs start above 0 and grow with the position. */
  ghost predicate Rising(log: seq<Record>) {
    && (forall i :: 0 <= i < |log| ==> 1 <= log[i].lsn)
    && (forall i, j :: 0 <= i < j < |log| ==> log[i].lsn < log[j].lsn)
  }

  /** A slot of the log file: a record whose checksum holds, or a torn one. */
  datatype Slot = Good(rec: Record) | Torn

  /** The records before the first torn slot. */
  function ValidPrefix(slots: seq<Slot>): seq<Record> {
    if slots == [] || slots[0].Torn? then [] else [slots[0].rec] + ValidPrefix(slots[1..])
  }

  /** scanInit: counts the records up to the first torn slot and finds the next LSN and XID. */
  method ScanInit(file: seq<Slot>) returns (n: nat, lsn: nat, xid: nat)
    ensures n == |ValidPrefix(file)| && lsn >= 1 && xid >= 1
    ensures forall i :: 0 <= i < n ==> ValidPrefix(file)[i].lsn < lsn && ValidPrefix(file)[i].xid < xid
    ensures lsn == 1 || exists i :: 0 <= i < n && lsn == ValidPrefix(file)[i].lsn + 1
    ensures xid == 1 || exists i :: 0 <= i < n && xid == ValidPrefix(file)[i].xid + 1
  {
    hide ValidPrefix;
    n, lsn, xid := 0, 1, 1;
    ghost var log := ValidPrefix(file);
    PrefixSlots(file);
    while n < |file| && file[n].Good?
      invariant n <= |log| && lsn >= 1 && xid >= 1
      invariant forall i :: 0 <= i < n ==> log[i].lsn < lsn && log[i].xid < xid
      invariant lsn == 1 || exists i :: 0 <= i < n && lsn == log[i].lsn + 1
      invariant xid == 1 || exists i :: 0 <= i < n && xid == log[i].xid + 1
    {
      var r := file[n].rec;
      assert r == log[n];
      if r.lsn >= lsn {
        lsn := r.lsn + 1;
      }
      if r.xid >= xid {
        xid := r.xid + 1;
      }
      n := n + 1;
    }
  }

  class Wal {
    var slots: seq<Slot>
    var records: nat
    var nextLSN: nat
    var nextXID: nat

    ghost function Log(): seq<Record>
      reads this
    {
      ValidPrefix(slots)
    }

    ghost predicate Valid()
      reads this
    {
      && records == |Log()|
      && records <= |slots| <= records + 1
      && Counted(Log(), nextLSN, nextXID)
    }

    /** wal.Open: restores the counters by scanning up to the first torn record.  The log is usable from
        here on exactly when nothing follows that record and LSNs grew with the position. */
    constructor (file: seq<Slot>)
      ensures slots == file && Log() == ValidPrefix(file) && records == |Log()|
      ensures nextLSN >= 1 && nextXID >= 1
      ensures forall i :: 0 <= i < |Log()| ==> Log()[i].lsn < nextLSN && Log()[i].xid < nextXID
      ensures nextLSN == 1 || exists i :: 0 <= i < |Log()| && nextLSN == Log()[i].lsn + 1
      ensures nextXID == 1 || exists i :: 0 <= i < |Log()| && nextXID == Log()[i].xid + 1
      ensures Valid() <==> |file| <= |Log()| + 1 && Rising(Log())
    {
      PrefixSlots(file);
      var n, lsn, xid := ScanInit(file);
      slots, records, nextLSN, nextXID := file, n, lsn, xid;
    }

    /** Writes r at the logical end, over a torn slot if there is one. */
    method Append(r: Record)
      requires Valid() && r.lsn == nextLSN && r.xid < nextXID
      modifies this
      ensures Valid() && Log() == old(Log()) + [r]
      ensures nextLSN == old(nextLSN) + 1 && nextXID == old(nextXID)
    {
      PrefixSlots(slots);
      ghost var log := Log();
      slots := slots[..records] + [Good(r)];
      records, nextLSN := records + 1, nextLSN + 1;
      PrefixAppend(log, r);
      assert slots == seq(|log|, i requires 0 <= i < |log| => Good(log[i])) + [Good(r)];
    }

    /** Reserves a transaction id no record of the log carries, and logs its begin record. */
    method AllocXID() returns (xid: nat)
      requires Valid()
      modifies this
      ensures Valid() && Log() == old(Log()) + [Record(old(nextLSN), xid, BeginRecord, NO_KEY, NO_IMAGE)]
      ensures xid == old(nextXID) && nextXID == xid + 1
      ensures forall r :: r in old(Log()) ==> r.xid != xid
    {
      xid := nextXID;
      nextXID := nextXID + 1;
      Append(Record(nextLSN, xid, BeginRecord, NO_KEY, NO_IMAGE));
    }

    /** Logs an after-image; the file name is cut to the width of its field. */
    method AppendWrite(xid: nat, key: Key, image: Image)
      requires Valid() && xid < nextXID
      modifies this
      ensures Valid() && nextXID == old(nextXID) && nextLSN == old(nextLSN) + 1
      ensures Log() == old(Log()) + [Record(old(nextLSN), xid, WriteRecord, Key(Cut(key.file), key.page), image)]
    {
      Append(Record(nextLSN, xid, WriteRecord, Key(Cut(key.file), key.page), image));
    }

    method AppendEnd(xid: nat, kind: Kind)
      requires Valid() && xid < nextXID && kind in {CommitRecord, RollbackRecord}
      modifies this
      ensures Valid() && nextXID == old(nextXID) && nextLSN == old(nextLSN) + 1
      ensures Log() == old(Log()) + [Record(old(nextLSN), xid, kind, NO_KEY, NO_IMAGE)]
    {
      Append(Record(nextLSN, xid, kind, NO_KEY, NO_IMAGE));
    }
  }

  lemma {:induction false} PrefixAppend(log: seq<Record>, r: Record)
    ensures ValidPrefix(seq(|log|, i requires 0 <= i < |log| => Good(log[i])) + [Good(r)]) == log + [r]
  {
    var slots := seq(|log|, i requires 0 <= i < |log| => Good(log[i])) + [Good(r)];
    PrefixSlots(slots);
    PrefixAll(slots);
    var p := ValidPrefix(slots);
    assert forall i :: 0 <= i < |p| ==> p[i] == (log + [r])[i];
  }

  lemma {:induction false} PrefixAll(slots: seq<Slot>)
    requires forall i :: 0 <= i < |slots| ==> slots[i].Good?
    ensures |ValidPrefix(slots)| == |slots|
  {
    if slots != [] {
      PrefixAll(slots[1..]);
    }
  }

  // ---------------------------------------------------------------- recovery

  datatype Latest = Latest(image: Image, lsn: nat)

  /** The images in latest are those of replaying log in order. */
  ghost predicate Tracks(latest: map<Key, Latest>, log: seq<Record>, done: set<nat>) {
    && latest.Keys == Replay(log, done).Keys
    && forall k :: k in latest ==> latest[k].image == Replay(log, done)[k]
  }

  /** The LSNs kept so far are below those of the records from n on. */
  ghost predicate Behind(latest: map<Key, Latest>, log: seq<Record>, n: nat) {
    forall k, i :: k in latest && n <= i < |log| ==> latest[k].lsn < log[i].lsn
  }

  lemma {:induction false} TracksStep(latest: map<Key, Latest>, log: seq<Record>, n: nat, done: set<nat>)
    requires n < |log| && Tracks(latest, log[..n], done)
    ensures var r := log[n];
      var latest' := if Applies(r, done) then latest[r.key := Latest(r.image, r.lsn)] else latest;
      Tracks(latest', log[..n + 1], done)
  {
    TakeOne(log, n);
  }

  /** Phase 2 of recovery: for each page keep the committed write with the highest LSN.
      Because LSNs grow with the position, that is the last one in the log. */
  method KeepLatest(log: seq<Record>, done: set<nat>, ghost nextLSN: nat, ghost nextXID: nat)
    returns (latest: map<Key, Latest>)
    requires Counted(log, nextLSN, nextXID)
    ensures Tracks(latest, log, done)
  {
    hide Tracks;
    latest := map[];
    TracksNothing(log, done);
    for n := 0 to |log|
      invariant Tracks(latest, log[..n], done)
      invariant Behind(latest, log, n)
    {
      var r := log[n];
      TracksStep(latest, log, n, done);
      if Applies(r, done) && r.lsn > (if r.key in latest then latest[r.key].lsn else 0) {
        latest := latest[r.key := Latest(r.image, r.lsn)];
      }
    }
    assert log[..|log|] == log;
  }

  lemma {:induction false} TracksNothing(log: seq<Record>, done: set<nat>)
    ensures Tracks(map[], log[..0], done)
  {
  }

  /** Phase 1 of recovery, and CommittedXIDs. */
  method CommittedXIDs(log: seq<Record>) returns (done: set<nat>)
    ensures done == Committed(log)
  {
    done := {};
    for n := 0 to |log|
      invariant done == Committed(log[..n])
    {
      TakeOne(log, n);
      if log[n].kind == CommitRecord {
        done := done + {log[n].xid};
      }
    }
    assert log[..|log|] == log;
  }

  /** The part of an overlay that falls into files that exist. */
  function Present(m: map<Key, Image>, files: set<string>): map<Key, Image> {
    map k | k in m && k.file in files :: m[k]
  }

  lemma {:induction false} PresentStep(disk: map<Key, Image>, m: map<Key, Image>, todo: set<Key>, k: Key, files: set<string>)
    requires k in m && k in todo
    ensures var was := disk + Present(m - todo, files);
      disk + Present(m - (todo - {k}), files) == if k.file in files then was[k := m[k]] else was
  {
  }

  /** Phase 3 of recovery: writes the kept pages, in any order. */
  method WritePages(latest: map<Key, Latest>, disk: map<Key, Image>, files: set<string>, ghost images: map<Key, Image>)
    returns (disk': map<Key, Image>)
    requires latest.Keys == images.Keys && forall k :: k in latest ==> latest[k].image == images[k]
    ensures disk' == disk + Present(images, files)
  {
    hide Present;
    disk' := disk;
    var todo := latest.Keys;
    PresentEnds(disk, images, files);
    while todo != {}
      invariant todo <= latest.Keys
      invariant disk' == disk + Present(images - todo, files)
      decreases |todo|
    {
      var k :| k in todo;
      PresentStep(disk, images, todo, k, files);
      if k.file in files {
        disk' := disk'[k := latest[k].image];
      }
      todo := todo - {k};
    }
  }

  lemma {:induction false} PresentEnds(disk: map<Key, Image>, m: map<Key, Image>, files: set<string>)
    ensures disk + Present(m - m.Keys, files) == disk && m - {} == m
  {
  }

  /** wal.Recover: the pages of existing files end up as an in-order replay of the committed
      writes leaves them. */
  method Recover(log: seq<Record>, disk: map<Key, Image>, files: set<string>, ghost nextLSN: nat, ghost nextXID: nat)
    returns (disk': map<Key, Image>)
    requires Counted(log, nextLSN, nextXID)
    ensures disk' == disk + Present(Images(log), files)
    ensures forall k: Key, i: nat :: LastWrite(log, k, i) && k.file in files ==> k in disk' && disk'[k] == log[i].image
    ensures forall k: Key :: k.file !in files || (forall i :: 0 <= i < |log| ==> !CommittedWrite(log, k, i)) ==>
      (k in disk' <==> k in disk) && (k in disk ==> disk'[k] == disk[k])
  {
    var done := CommittedXIDs(log);
    var latest := KeepLatest(log, done, nextLSN, nextXID);
    disk' := WritePages(latest, disk, files, Images(log));
    hide Images, Counted;
    forall k: Key ensures k in Images(log) <==> exists i :: 0 <= i < |log| && CommittedWrite(log, k, i) {
      ImagesAreLast(log, k);
    }
    forall k: Key, i: nat | LastWrite(log, k, i) ensures k in Images(log) && Images(log)[k] == log[i].image {
      ImagesAreLast(log, k);
    }
  }

  /** Opening a database twice: the second recovery finds every page as the first one left it. */
  method RecoverTwice(log: seq<Record>, disk: map<Key, Image>, files: set<string>, ghost nextLSN: nat, ghost nextXID: nat)
    returns (once: map<Key, Image>, twice: map<Key, Image>)
    requires Counted(log, nextLSN, nextXID)
    ensures once == disk + Present(Images(log), files) && twice == once
  {
    once := Recover(log, disk, files, nextLSN, nextXID);
    twice := Recover(log, once, files, nextLSN, nextXID);
  }

  // ---------------------------------------------------------------- cut file names

  /** What the log file holds of records: their file names cut to the width of the field. */
  function CutAll(us: seq<Record>): (log: seq<Record>)
    ensures |log| == |us|
    ensures forall i :: 0 <= i < |us| ==> log[i] == us[i].(key := Key(Cut(us[i].key.file), us[i].key.page))
  {
    seq(|us|, i requires 0 <= i < |us| => us[i].(key := Key(Cut(us[i].key.file), us[i].key.page)))
  }

  lemma {:induction false} CutInit(us: seq<Record>)
    requires us != []
    ensures CutAll(us)[..|us| - 1] == CutAll(us[..|us| - 1])
  {
  }

  lemma {:induction false} CutCommitted(us: seq<Record>)
    ensures Committed(CutAll(us)) == Committed(us)
  {
    if us != [] {
      CutInit(us);
      CutCommitted(us[..|us| - 1]);
    }
  }

  /** No other file name in the log starts with the same 32 bytes. */
  ghost predicate NoClash(us: seq<Record>, name: string) {
    forall i :: 0 <= i < |us| && us[i].kind == WriteRecord && Cut(us[i].key.file) == Cut(name) ==> us[i].key.file == name
  }

  lemma {:induction false} ReplayCut(us: seq<Record>, done: set<nat>, k: Key)
    requires |k.file| <= NAME_SIZE ==> NoClash(us, k.file)
    ensures |k.file| <= NAME_SIZE ==> (k in Replay(CutAll(us), done) <==> k in Replay(us, done))
    ensures |k.file| <= NAME_SIZE && k in Replay(us, done) ==> Replay(CutAll(us), done)[k] == Replay(us, done)[k]
    ensures |k.file| > NAME_SIZE ==> k !in Replay(CutAll(us), done)
  {
    if us != [] {
      CutInit(us);
      ReplayCut(us[..|us| - 1], done, k);
      assert |Cut(us[|us| - 1].key.file)| <= NAME_SIZE;
    }
  }

  /** For every log: a committed page of an existing file holds its last committed image after recovery
      exactly when its file name fits the field, or the page was right already. */
  lemma {:induction false} RestoredIffFits(us: seq<Record>, disk: map<Key, Image>, files: set<string>, k: Key)
    requires k in Images(us) && k.file in files && (|k.file| <= NAME_SIZE ==> NoClash(us, k.file))
    ensures var disk' := disk + Present(Images(CutAll(us)), files);
      (k in disk' && disk'[k] == Images(us)[k]) <==> |k.file| <= NAME_SIZE || (k in disk && disk[k] == Images(us)[k])
  {
    hide Replay, Committed, Cut;
    CutCommitted(us);
    ReplayCut(us, Committed(us), k);
  }

  /** A table or index file: an identifier, which contains no dot, and its extension. */
  ghost predicate FileName(s: string) {
    exists id: string :: '.' !in id && (s == id + ".db" || s == id + ".idx")
  }

  /** The one dot of such a name is followed by db or idx and the end. */
  lemma {:induction false} DotPlace(s: string) returns (d: nat)
    requires FileName(s)
    ensures d + 2 < |s| && s[d] == '.' && (forall i :: 0 <= i < |s| && s[i] == '.' ==> i == d)
    ensures (s[d + 1] == 'd' && |s| == d + 3 && s[d + 2] == 'b') || (s[d + 1] == 'i' && |s| == d + 4 && s[d + 2] == 'd' && s[d + 3] == 'x')
  {
    var id: string :| '.' !in id && (s == id + ".db" || s == id + ".idx");
    d := |id|;
    assert forall i :: 0 <= i < |id| ==> s[i] == id[i];
  }

  /** Such names never clash: no longer name starts with a whole one. */
  lemma {:induction false} FileNamesNeverClash(f: string, g: string)
    requires FileName(f) && FileName(g) && |f| <= NAME_SIZE && Cut(g) == Cut(f)
    ensures f == g
  {
    var d := DotPlace(f);
    var e := DotPlace(g);
    assert forall i :: 0 <= i < |Cut(g)| ==> Cut(g)[i] == g[i] && f[i] == g[i];
    assert g[d] == '.';
  }

  /** So over logs of table and index files a committed page is restored exactly when the name of its
      file has at most 32 bytes, or the page was right already. */
  lemma {:induction false} RestoredIffNameFits(us: seq<Record>, disk: map<Key, Image>, files: set<string>, k: Key)
    requires k in Images(us) && k.file in files && FileName(k.file)
    requires forall i :: 0 <= i < |us| && us[i].kind == WriteRecord ==> FileName(us[i].key.file)
    ensures var disk' := disk + Present(Images(CutAll(us)), files);
      (k in disk' && disk'[k] == Images(us)[k]) <==> |k.file| <= NAME_SIZE || (k in disk && disk[k] == Images(us)[k])
  {
    hide Replay, Committed, Cut, Images;
    if |k.file| <= NAME_SIZE {
      forall i | 0 <= i < |us| && us[i].kind == WriteRecord && Cut(us[i].key.file) == Cut(k.file) ensures us[i].key.file == k.file {
        FileNamesNeverClash(k.file, us[i].key.file);
      }
    }
    RestoredIffFits(us, disk, files, k);
  }

  /** Of two names where one is the first 32 bytes of the other, the longer one's pages overwrite the
      shorter one's in recovery. */
  lemma {:induction false} ClashOverwrites(name: string, longer: string, page: nat, a: Image, b: Image, disk: map<Key, Image>)
    requires |name| == NAME_SIZE < |longer| && longer[..NAME_SIZE] == name
    ensures var us := [Record(1, 1, WriteRecord, Key(name, page), a), Record(2, 1, CommitRecord, NO_KEY, NO_IMAGE),
                       Record(3, 2, WriteRecord, Key(longer, page), b), Record(4, 2, CommitRecord, NO_KEY, NO_IMAGE)];
      && Counted(CutAll(us), 5, 3)
      && Key(name, page) in Images(us) && Images(us)[Key(name, page)] == a
      && var disk' := disk + Present(Images(CutAll(us)), {name, longer});
        Key(name, page) in disk' && disk'[Key(name, page)] == b
  {
    hide Images, LastWrite, CommittedWrite, Cut;
    CutNames(name, longer);
    var k := Key(name, page);
    var us := [Record(1, 1, WriteRecord, k, a), Record(2, 1, CommitRecord, NO_KEY, NO_IMAGE),
               Record(3, 2, WriteRecord, Key(longer, page), b), Record(4, 2, CommitRecord, NO_KEY, NO_IMAGE)];
    var log := CutAll(us);
    LastOfFour(us, k, 0);
    LastOfFour(log, k, 2);
    ImagesAreLast(us, k);
    ImagesAreLast(log, k);
  }

  lemma {:induction false} CutNames(name: string, longer: string)
    requires |name| == NAME_SIZE < |longer| && longer[..NAME_SIZE] == name
    ensures Cut(name) == Cut(longer) == name
  {
  }

  /** Two transactions that write one page each: the page is last written by the second one that names it. */
  lemma {:induction false} LastOfFour(log: seq<Record>, k: Key, i: nat)
    requires |log| == 4 && log[0].kind == log[2].kind == WriteRecord && log[1].kind == log[3].kind == CommitRecord
    requires log[0].xid == log[1].xid && log[2].xid == log[3].xid
    requires (i == 2 || (i == 0 && log[2].key != k)) && log[i].key == k
    ensures LastWrite(log, k, i) && CommittedWrite(log, k, i)
  {
    assert HasCommit(log, log[i].xid) by {
      assert log[i + 1].kind == CommitRecord && log[i + 1].xid == log[i].xid;
    }
  }

  lemma {:induction false} PrefixSlots(slots: seq<Slot>)
    ensures var log := ValidPrefix(slots);
      && |log| <= |slots|
      && (forall i :: 0 <= i < |log| ==> slots[i] == Good(log[i]))
      && (|log| < |slots| ==> slots[|log|].Torn?)
  {
    if slots != [] && slots[0].Good? {
      PrefixSlots(slots[1..]);
    }
  }
}
