/** The commit / crash / recover protocol as a step machine.  Every interleaving of buffered
    writes with one commit at a time, cut by crashes anywhere, is a run of these steps. */
module Protocol {
  import opened Seqs
  import opened Wals

  /** An active transaction: its buffered pages and the pages it allocated. */
  datatype Tx = Tx(dirty: map<Key, Image>, owned: set<Key>)

  /** How far the one commit in progress has got (commits hold the database lock, and a
      transaction leaves the table of active ones when its commit starts). */
  datatype Phase =
    | Idle
    | Logging(xid: nat, writes: map<Key, Image>, todo: set<Key>, start: nat)
    | Logged(xid: nat, writes: map<Key, Image>)
    | Flushing(xid: nat, writes: map<Key, Image>, todo: set<Key>)
    | Down

  /** A committed transaction: its write set and the length of the log with its commit record. */
  datatype Commit = Commit(xid: nat, writes: map<Key, Image>, at: nat)

  datatype State = State(
    log: seq<Record>, synced: nat, nextLSN: nat, nextXID: nat,
    base: map<Key, Image>, disk: map<Key, Image>,
    txs: map<nat, Tx>, phase: Phase,
    marked: set<nat>, acked: set<nat>, commits: seq<Commit>)

  datatype Step =
    | Begin
    | Write(xid: nat, key: Key, image: Image)
    | Allocate(xid: nat, key: Key)
    | StartCommit(xid: nat)
    | LogWrite(key: Key)
    | LogCommit
    | Sync
    | FlushPage(key: Key)
    | MarkCommitted
    | Rollback(xid: nat)
    | Crash(keep: nat)
    | RecoverPage(key: Key)
    | Reopen

  // ---------------------------------------------------------------- the reference store

  /** The pages after the write sets of the commits, one whole transaction after another. */
  function Apply(commits: seq<Commit>): map<Key, Image> {
    if commits == [] then map[] else Apply(commits[..|commits| - 1]) + commits[|commits| - 1].writes
  }

  function Xids(commits: seq<Commit>): set<nat> {
    if commits == [] then {} else Xids(commits[..|commits| - 1]) + {commits[|commits| - 1].xid}
  }

  /** The commits whose commit record is within the first n records. */
  function Within(commits: seq<Commit>, n: nat): seq<Commit> {
    if commits == [] then [] else
    if commits[|commits| - 1].at <= n then commits else Within(commits[..|commits| - 1], n)
  }

  // ---------------------------------------------------------------- steps

  /** The page a transaction sees: its own copy, else the one on disk. */
  ghost predicate Sees(s: State, tx: Tx, k: Key, image: Image) {
    if k in tx.dirty then tx.dirty[k] == image else k in s.disk && s.disk[k] == image
  }

  ghost predicate SeesHeader(s: State, tx: Tx, h: Header) {
    exists k, image :: Sees(s, tx, k, image) && h in image.rows
  }

  /** A statement stores rows it inserted (xmin is its own id) or rows it read, and deletes by
      setting xmax to its own id. */
  ghost predicate Derived(s: State, xid: nat, tx: Tx, image: Image) {
    forall i :: 0 <= i < |image.rows| ==>
      var h := image.rows[i];
      || (h.xmin == xid && h.xmax in {0, xid})
      || SeesHeader(s, tx, h)
      || (h.xmax == xid && exists was :: SeesHeader(s, tx, was) && was.xmin == h.xmin)
  }

  /** The pages of the commit in progress. */
  function Pending(phase: Phase): map<Key, Image> {
    match phase
    case Logging(_, w, _, _) => w
    case Logged(_, w) => w
    case Flushing(_, w, _) => w
    case _ => map[]
  }

  /** Pages that tables and committed transactions live on. */
  ghost predicate Shared(base: map<Key, Image>, commits: seq<Commit>, k: Key) {
    k in base || k in Apply(commits)
  }

  ghost predicate Enabled(s: State, step: Step) {
    match step
    case Begin => s.phase == Idle
    case Write(xid, k, image) =>
      && xid in s.txs && s.phase != Down && |k.file| <= NAME_SIZE
      && (Shared(s.base, s.commits, k) || k in s.txs[xid].owned)
      && Derived(s, xid, s.txs[xid], image)
    case Allocate(xid, k) =>
      && xid in s.txs && s.phase != Down && !Shared(s.base, s.commits, k) && k !in Pending(s.phase)
      && forall x :: x in s.txs ==> k !in s.txs[x].owned && k !in s.txs[x].dirty
    case StartCommit(xid) => s.phase == Idle && xid in s.txs
    case LogWrite(k) => s.phase.Logging? && k in s.phase.todo && k in s.phase.writes
    case LogCommit => s.phase.Logging? && s.phase.todo == {}
    case Sync => s.phase.Logged?
    case FlushPage(k) => s.phase.Flushing? && k in s.phase.todo && k in s.phase.writes
    case MarkCommitted => s.phase.Flushing? && s.phase.todo == {}
    case Rollback(xid) => s.phase == Idle && xid in s.txs
    case Crash(keep) => s.synced <= keep <= |s.log|
    case RecoverPage(k) => s.phase == Down && k in Images(s.log)
    case Reopen => s.phase == Down
  }

  function Append(s: State, xid: nat, kind: Kind, key: Key, image: Image): State {
    s.(log := s.log + [Record(s.nextLSN, xid, kind, key, image)], nextLSN := s.nextLSN + 1)
  }

  function MaxLSN(log: seq<Record>): nat {
    if log == [] then 0 else
    var m, l := MaxLSN(log[..|log| - 1]), log[|log| - 1].lsn;
    if l > m then l else m
  }

  function MaxXID(log: seq<Record>): nat {
    if log == [] then 0 else
    var m, x := MaxXID(log[..|log| - 1]), log[|log| - 1].xid;
    if x > m then x else m
  }

  const BLANK := Image([], 0)

  function SetTx(s: State, xid: nat, tx: Tx): State {
    s.(txs := s.txs[xid := tx])
  }

  ghost function Next(s: State, step: Step): State
    requires Enabled(s, step)
  {
    match step
    case Begin =>
      SetTx(Append(s, s.nextXID, BeginRecord, NO_KEY, NO_IMAGE), s.nextXID, Tx(map[], {})).(nextXID := s.nextXID + 1)
    case Write(xid, k, image) =>
      SetTx(s, xid, s.txs[xid].(dirty := s.txs[xid].dirty[k := image]))
    case Allocate(xid, k) =>
      SetTx(s, xid, s.txs[xid].(owned := s.txs[xid].owned + {k})).(disk := s.disk[k := BLANK])
    case StartCommit(xid) =>
      s.(txs := s.txs - {xid}, phase := Logging(xid, s.txs[xid].dirty, s.txs[xid].dirty.Keys, |s.log|))
    case LogWrite(k) =>
      Append(s, s.phase.xid, WriteRecord, Key(Cut(k.file), k.page), s.phase.writes[k])
        .(phase := Logging(s.phase.xid, s.phase.writes, s.phase.todo - {k}, s.phase.start))
    case LogCommit =>
      Append(s, s.phase.xid, CommitRecord, NO_KEY, NO_IMAGE)
        .(phase := Logged(s.phase.xid, s.phase.writes),
          commits := s.commits + [Commit(s.phase.xid, s.phase.writes, |s.log| + 1)])
    case Sync =>
      s.(synced := |s.log|, phase := Flushing(s.phase.xid, s.phase.writes, s.phase.writes.Keys))
    case FlushPage(k) =>
      s.(disk := s.disk[k := s.phase.writes[k]], phase := Flushing(s.phase.xid, s.phase.writes, s.phase.todo - {k}))
    case MarkCommitted =>
      s.(marked := s.marked + {s.phase.xid}, acked := s.acked + {s.phase.xid}, phase := Idle)
    case Rollback(xid) =>
      Append(s, xid, RollbackRecord, NO_KEY, NO_IMAGE)
        .(disk := s.disk + (map k | k in s.txs[xid].owned :: BLANK), txs := s.txs - {xid})
    case Crash(keep) =>
      s.(log := s.log[..keep], synced := keep, txs := map[], phase := Down, marked := {},
         commits := Within(s.commits, keep))
    case RecoverPage(k) =>
      s.(disk := s.disk[k := Images(s.log)[k]])
    case Reopen =>
      s.(disk := s.disk + Images(s.log), nextLSN := MaxLSN(s.log) + 1, nextXID := MaxXID(s.log) + 1,
         marked := Committed(s.log), phase := Idle)
  }

  // ---------------------------------------------------------------- invariant

  /** Every row header on the page names transactions of done. */
  ghost predicate HeadersIn(image: Image, done: set<nat>) {
    forall i :: 0 <= i < |image.rows| ==>
      image.rows[i].xmin in done && (image.rows[i].xmax == 0 || image.rows[i].xmax in done)
  }

  /** Every prefix of the log stands for the commits whose records it holds. */
  ghost predicate LogIsCommits(log: seq<Record>, commits: seq<Commit>) {
    forall n :: 0 <= n <= |log| ==> PrefixIs(log, commits, n)
  }

  ghost predicate PrefixIs(log: seq<Record>, commits: seq<Commit>, n: nat)
    requires n <= |log|
  {
    Images(log[..n]) == Apply(Within(commits, n)) && Committed(log[..n]) == Xids(Within(commits, n))
  }

  ghost predicate CommitsOrdered(commits: seq<Commit>, n: nat) {
    && (forall i :: 0 <= i < |commits| ==> commits[i].at <= n)
    && (forall i, j :: 0 <= i < j < |commits| ==> commits[i].at < commits[j].at)
  }

  /** The log: its counters, and its agreement with the commits. */
  ghost predicate LogOk(s: State) {
    && s.synced <= |s.log|
    && Counted(s.log, s.nextLSN, s.nextXID)
    && LogIsCommits(s.log, s.commits)
    && CommitsOrdered(s.commits, |s.log|)
  }

  ghost predicate NoWrites(log: seq<Record>, xid: nat) {
    forall i :: 0 <= i < |log| && log[i].kind == WriteRecord ==> log[i].xid != xid
  }

  /** The records from start on are the after-images of writes, except for those in todo. */
  ghost predicate LoggedSoFar(log: seq<Record>, xid: nat, writes: map<Key, Image>, todo: set<Key>) {
    && (forall i :: 0 <= i < |log| ==>
          log[i].kind == WriteRecord && log[i].xid == xid && log[i].key in writes && log[i].image == writes[log[i].key])
    && (forall k :: k in writes && k !in todo ==> exists i :: 0 <= i < |log| && log[i].key == k)
  }

  ghost predicate PhaseOk(s: State)
    requires s.synced <= |s.log|
  {
    match s.phase
    case Idle => s.marked == Xids(s.commits) && Settled(s)
    case Logging(xid, w, todo, start) =>
      && s.marked == Xids(s.commits) && Settled(s)
      && xid < s.nextXID && xid !in Xids(s.commits) && start <= |s.log|
      && NoWrites(s.log[..start], xid) && LoggedSoFar(s.log[start..], xid, w, todo)
    case Logged(xid, w) =>
      && s.marked + {xid} == Xids(s.commits)
      && s.commits != [] && s.commits[|s.commits| - 1] == Commit(xid, w, |s.log|)
      && forall i :: 0 <= i < |s.commits| - 1 ==> s.commits[i].at <= s.synced
    case Flushing(xid, w, todo) =>
      && s.marked + {xid} == Xids(s.commits) && Settled(s) && s.synced == |s.log|
      && s.commits != [] && s.commits[|s.commits| - 1] == Commit(xid, w, |s.log|)
    case Down => s.synced == |s.log| && s.txs == map[]
  }

  /** All commits are durable. */
  ghost predicate Settled(s: State) {
    forall i :: 0 <= i < |s.commits| ==> s.commits[i].at <= s.synced
  }

  /** Acknowledged commits are durable; active transactions have logged no write. */
  ghost predicate TxsOk(s: State)
    requires s.synced <= |s.log|
  {
    && s.acked <= Durable(s)
    && TxIds(s.txs, s.nextXID, Xids(s.commits), s.log)
    && (s.phase.Logging? || s.phase.Logged? || s.phase.Flushing? ==> s.phase.xid !in s.txs)
    && ShortNames(Pending(s.phase))
    && TxNames(s.txs)
  }

  ghost predicate TxIds(txs: map<nat, Tx>, nextXID: nat, done: set<nat>, log: seq<Record>) {
    forall x :: x in txs ==> x < nextXID && x !in done && NoWrites(log, x)
  }

  ghost predicate ShortNames(pages: map<Key, Image>) {
    forall k :: k in pages ==> |k.file| <= NAME_SIZE
  }

  ghost predicate TxNames(txs: map<nat, Tx>) {
    forall x :: x in txs ==> ShortNames(txs[x].dirty)
  }

  /** A page allocated by an active transaction is known to that transaction alone. */
  ghost predicate OwnedOk(txs: map<nat, Tx>, base: map<Key, Image>, commits: seq<Commit>, pending: map<Key, Image>) {
    && (forall x, k :: x in txs && k in txs[x].owned ==> !Shared(base, commits, k) && k !in pending)
    && (forall x, y, k :: x in txs && y in txs && x != y && k in txs[x].owned ==>
          k !in txs[y].owned && k !in txs[y].dirty)
  }

  /** What the durable part of the log commits. */
  ghost function Durable(s: State): set<nat>
    requires s.synced <= |s.log|
  {
    Committed(s.log[..s.synced])
  }

  /** The commits whose effect on page k is on disk. */
  function OnDisk(commits: seq<Commit>, phase: Phase, k: Key): seq<Commit> {
    if commits != [] && ((phase.Flushing? && k in phase.todo) || (phase.Logged? && k in phase.writes))
    then commits[..|commits| - 1] else commits
  }

  /** Outside recovery, a page holds the last after-image of the commits on disk; a page no
      commit touched holds what the table started with. */
  ghost predicate DiskOk(base: map<Key, Image>, disk: map<Key, Image>, commits: seq<Commit>, phase: Phase) {
    forall k :: PageOk(base, disk, Apply(OnDisk(commits, phase, k)), phase != Down, k)
  }

  ghost predicate PageOk(base: map<Key, Image>, disk: map<Key, Image>, done: map<Key, Image>, up: bool, k: Key) {
    && (up && k in done ==> k in disk && disk[k] == done[k])
    && (k in base && k !in done ==> k in disk && disk[k] == base[k])
  }

  /** No page on disk names a transaction that is not durably committed (no-steal). */
  ghost predicate DiskHeaders(disk: map<Key, Image>, done: set<nat>) {
    forall k :: k in disk ==> HeadersIn(disk[k], done)
  }

  ghost predicate TxHeaders(txs: map<nat, Tx>, done: set<nat>) {
    forall x, k :: x in txs && k in txs[x].dirty ==> HeadersIn(txs[x].dirty[k], done + {x})
  }

  ghost predicate PendingHeaders(phase: Phase, done: set<nat>) {
    forall k :: k in Pending(phase) ==> HeadersIn(Pending(phase)[k], done + {phase.xid})
  }

  /** A logged image names transactions that were committed when it was logged, or its own. */
  ghost predicate LogHeaders(log: seq<Record>) {
    forall i :: 0 <= i < |log| && log[i].kind == WriteRecord ==>
      HeadersIn(log[i].image, Committed(log[..i]) + {log[i].xid})
  }

  ghost predicate HeadersOk(s: State)
    requires s.synced <= |s.log|
  {
    && DiskHeaders(s.disk, Durable(s))
    && TxHeaders(s.txs, Durable(s))
    && PendingHeaders(s.phase, Durable(s))
    && LogHeaders(s.log)
  }

  ghost predicate Inv(s: State) {
    && LogOk(s) && PhaseOk(s) && TxsOk(s) && HeadersOk(s)
    && OwnedOk(s.txs, s.base, s.commits, Pending(s.phase))
    && DiskOk(s.base, s.disk, s.commits, s.phase)
  }

  // ---------------------------------------------------------------- the log

  lemma {:induction false} WithinAll(commits: seq<Commit>, n: nat)
    requires CommitsOrdered(commits, n)
    ensures Within(commits, n) == commits
  {
  }

  lemma {:induction false} PrefixKept(log: seq<Record>, r: Record, commits: seq<Commit>, n: nat)
    requires n <= |log| && PrefixIs(log, commits, n)
    ensures PrefixIs(log + [r], commits, n)
  {
    assert (log + [r])[..n] == log[..n];
  }

  lemma {:induction false} AppendImages(log: seq<Record>, r: Record)
    requires r.kind != CommitRecord && (r.kind == WriteRecord ==> r.xid !in Committed(log))
    ensures Images(log + [r]) == Images(log) && Committed(log + [r]) == Committed(log)
  {
    var log' := log + [r];
    assert log'[..|log|] == log && log'[|log|] == r;
    assert Committed(log') == Committed(log);
    hide Committed;
  }

  /** A record that commits nothing leaves the meaning of the log alone. */
  lemma {:induction false} AppendKeepsCommits(log: seq<Record>, r: Record, commits: seq<Commit>)
    requires LogIsCommits(log, commits) && CommitsOrdered(commits, |log|)
    requires r.kind != CommitRecord && (r.kind == WriteRecord ==> r.xid !in Xids(commits))
    ensures LogIsCommits(log + [r], commits) && CommitsOrdered(commits, |log| + 1)
  {
    var log' := log + [r];
    assert PrefixIs(log, commits, |log|) && log[..|log|] == log;
    WithinAll(commits, |log|);
    WithinAll(commits, |log| + 1);
    forall n | 0 <= n <= |log'| ensures PrefixIs(log', commits, n) {
      if n <= |log| {
        PrefixKept(log, r, commits, n);
      } else {
        AppendImages(log, r);
        assert log'[..n] == log';
      }
    }
  }

  lemma {:induction false} SuffixReplay(suffix: seq<Record>, xid: nat, writes: map<Key, Image>, todo: set<Key>, done: set<nat>)
    requires LoggedSoFar(suffix, xid, writes, todo)
    ensures xid !in done ==> Replay(suffix, done) == map[]
    ensures xid in done ==> forall k :: k in Replay(suffix, done) <==> exists i :: 0 <= i < |suffix| && suffix[i].key == k
    ensures forall k :: k in Replay(suffix, done) ==> k in writes && Replay(suffix, done)[k] == writes[k]
  {
    if suffix != [] {
      var r, last := suffix[..|suffix| - 1], suffix[|suffix| - 1];
      SuffixReplay(r, xid, writes, writes.Keys, done);
      forall k | xid in done && k in Replay(suffix, done) ensures exists i :: 0 <= i < |suffix| && suffix[i].key == k {
        if k in Replay(r, done) {
          var i :| 0 <= i < |r| && r[i].key == k;
          assert suffix[i].key == k;
        } else {
          assert suffix[|suffix| - 1].key == k;
        }
      }
      forall k | xid in done && exists i :: 0 <= i < |suffix| && suffix[i].key == k ensures k in Replay(suffix, done) {
        var i :| 0 <= i < |suffix| && suffix[i].key == k;
        if i < |r| {
          assert r[i].key == k;
        }
      }
    }
  }

  /** The commit record makes exactly the logged write set part of the log's meaning. */
  lemma {:induction false} CommitImages(log: seq<Record>, start: nat, xid: nat, writes: map<Key, Image>, c: Record)
    requires start <= |log| && NoWrites(log[..start], xid) && LoggedSoFar(log[start..], xid, writes, {})
    requires xid !in Committed(log) && c.kind == CommitRecord && c.xid == xid
    ensures Images(log + [c]) == Images(log) + writes
    ensures Committed(log + [c]) == Committed(log) + {xid}
  {
    hide Replay, Committed, LoggedSoFar, NoWrites;
    var pre, suf, done := log[..start], log[start..], Committed(log);
    CommitRecordAlone(log, c, done + {xid});
    CutAt(log, start);
    ReplayConcat(pre, suf, done);
    ReplayConcat(pre, suf, done + {xid});
    PrefixIgnores(pre, done, xid);
    SuffixWhole(suf, xid, writes, done);
    NothingAdded(Replay(pre, done));
  }

  lemma {:induction false} PrefixIgnores(pre: seq<Record>, done: set<nat>, xid: nat)
    requires NoWrites(pre, xid)
    ensures Replay(pre, done + {xid}) == Replay(pre, done)
  {
    ReplayIgnores(pre, done, xid);
  }

  lemma {:induction false} NothingAdded(m: map<Key, Image>)
    ensures m + map[] == m
  {
  }

  lemma {:induction false} SuffixWhole(suffix: seq<Record>, xid: nat, writes: map<Key, Image>, done: set<nat>)
    requires LoggedSoFar(suffix, xid, writes, {}) && xid !in done
    ensures Replay(suffix, done) == map[] && Replay(suffix, done + {xid}) == writes
  {
    hide Replay;
    SuffixReplay(suffix, xid, writes, {}, done);
    SuffixReplay(suffix, xid, writes, {}, done + {xid});
    assert Replay(suffix, done + {xid}).Keys == writes.Keys;
  }

  lemma {:induction false} CommitRecordAlone(log: seq<Record>, c: Record, done: set<nat>)
    requires c.kind == CommitRecord
    ensures Replay(log + [c], done) == Replay(log, done)
    ensures Committed(log + [c]) == Committed(log) + {c.xid}
  {
    assert (log + [c])[..|log|] == log;
  }

  lemma {:induction false} CommitKeepsCommits(log: seq<Record>, commits: seq<Commit>, c: Record, writes: map<Key, Image>)
    requires LogIsCommits(log, commits) && CommitsOrdered(commits, |log|)
    requires Images(log + [c]) == Images(log) + writes && Committed(log + [c]) == Committed(log) + {c.xid}
    ensures var commits' := commits + [Commit(c.xid, writes, |log| + 1)];
      LogIsCommits(log + [c], commits') && CommitsOrdered(commits', |log| + 1)
  {
    hide Images, Committed, Apply, Xids;
    var log', commits' := log + [c], commits + [Commit(c.xid, writes, |log| + 1)];
    LastCommit(commits, commits'[|commits|]);
    assert PrefixIs(log, commits, |log|) && log[..|log|] == log;
    WithinAll(commits, |log|);
    forall n | 0 <= n <= |log'| ensures PrefixIs(log', commits', n) {
      if n <= |log| {
        PrefixKept(log, c, commits, n);
        assert Within(commits', n) == Within(commits, n);
      } else {
        assert log'[..n] == log';
      }
    }
  }

  lemma {:induction false} WithinWithin(commits: seq<Commit>, n: nat, m: nat)
    requires n <= m
    ensures Within(Within(commits, m), n) == Within(commits, n)
  {
    if commits != [] && commits[|commits| - 1].at > m {
      WithinWithin(commits[..|commits| - 1], n, m);
    }
  }

  lemma {:induction false} WithinIsPrefix(commits: seq<Commit>, n: nat)
    requires CommitsOrdered(commits, if commits == [] then 0 else commits[|commits| - 1].at)
    ensures |Within(commits, n)| <= |commits| && Within(commits, n) == commits[..|Within(commits, n)|]
    ensures forall i :: 0 <= i < |commits| && commits[i].at <= n ==> i < |Within(commits, n)|
    ensures CommitsOrdered(Within(commits, n), n)
  {
    if commits != [] {
      var r := commits[..|commits| - 1];
      if commits[|commits| - 1].at > n {
        WithinIsPrefix(r, n);
      }
    }
  }

  lemma {:induction false} CrashKeepsCommits(log: seq<Record>, commits: seq<Commit>, keep: nat)
    requires LogIsCommits(log, commits) && CommitsOrdered(commits, |log|) && keep <= |log|
    ensures LogIsCommits(log[..keep], Within(commits, keep)) && CommitsOrdered(Within(commits, keep), keep)
  {
    WithinIsPrefix(commits, keep);
    forall n | 0 <= n <= keep ensures PrefixIs(log[..keep], Within(commits, keep), n) {
      assert log[..keep][..n] == log[..n];
      WithinWithin(commits, n, keep);
      assert PrefixIs(log, commits, n);
    }
  }

  lemma {:induction false} CommittedGrows(log: seq<Record>, n: nat, m: nat)
    requires n <= m <= |log|
    ensures Committed(log[..n]) <= Committed(log[..m])
  {
    assert log[..m] == log[..n] + log[n..m];
    CommittedConcat(log[..n], log[n..m]);
  }

  lemma {:induction false} MaxBounds(log: seq<Record>)
    ensures forall i :: 0 <= i < |log| ==> log[i].lsn <= MaxLSN(log) && log[i].xid <= MaxXID(log)
  {
    if log != [] {
      MaxBounds(log[..|log| - 1]);
    }
  }

  /** A replayed page comes from a write record of a transaction in done. */
  lemma {:induction false} ReplaySource(log: seq<Record>, done: set<nat>, k: Key) returns (i: nat)
    requires k in Replay(log, done)
    ensures i < |log| && log[i].kind == WriteRecord && log[i].xid in done && log[i].image == Replay(log, done)[k]
  {
    var r := log[|log| - 1];
    if Applies(r, done) && r.key == k {
      i := |log| - 1;
    } else {
      i := ReplaySource(log[..|log| - 1], done, k);
    }
  }

  // ---------------------------------------------------------------- steps keep the invariant

  /** Appending a record that commits nothing. */
  lemma {:induction false} AppendOk(s: State, t: State, r: Record)
    requires LogOk(s) && LogHeaders(s.log)
    requires t.log == s.log + [r] && t.synced == s.synced && t.commits == s.commits
    requires r.lsn == s.nextLSN && t.nextLSN == s.nextLSN + 1 && r.xid < t.nextXID && s.nextXID <= t.nextXID
    requires r.kind != CommitRecord
    requires r.kind == WriteRecord ==> r.xid !in Xids(s.commits) && HeadersIn(r.image, Durable(s) + {r.xid})
    ensures LogOk(t) && Durable(t) == Durable(s) && LogHeaders(t.log)
    ensures forall x :: NoWrites(s.log, x) && (r.kind == WriteRecord ==> x != r.xid) ==> NoWrites(t.log, x)
  {
    hide LogIsCommits, Committed, Xids, HeadersIn;
    AppendKeepsCommits(s.log, r, s.commits);
    assert t.log[..t.synced] == s.log[..s.synced];
    CommittedGrows(s.log, s.synced, |s.log|);
    assert s.log[..|s.log|] == s.log;
    forall i | 0 <= i < |t.log| && t.log[i].kind == WriteRecord
      ensures HeadersIn(t.log[i].image, Committed(t.log[..i]) + {t.log[i].xid})
    {
      assert t.log[..i] == s.log[..i];
      if i == |s.log| {
        HeadersMore(r.image, Durable(s) + {r.xid}, Committed(t.log[..i]) + {r.xid});
      }
    }
  }

  lemma {:induction false} HeadersMore(image: Image, done: set<nat>, more: set<nat>)
    requires HeadersIn(image, done) && done <= more
    ensures HeadersIn(image, more)
  {
  }

  /** The committed set is that of the commits. */
  lemma {:induction false} CommittedIs(s: State)
    requires LogOk(s)
    ensures Committed(s.log) == Xids(s.commits) && Images(s.log) == Apply(s.commits)
    ensures Durable(s) <= Xids(s.commits)
  {
    assert PrefixIs(s.log, s.commits, |s.log|) && s.log[..|s.log|] == s.log;
    WithinAll(s.commits, |s.log|);
    CommittedGrows(s.log, s.synced, |s.log|);
  }

  lemma {:induction false} BeginOk(s: State)
    requires Inv(s) && Enabled(s, Begin)
    ensures Inv(Next(s, Begin))
  {
    hide LogIsCommits, Committed, Xids, Shared, HeadersIn, DiskOk, DiskHeaders, LogHeaders,
         OwnedOk, TxNames, TxHeaders, NoWrites;
    var t, x := Next(s, Begin), s.nextXID;
    AppendOk(s, t, Record(s.nextLSN, x, BeginRecord, NO_KEY, NO_IMAGE));
    XidsLogged(s, x);
    AddTx(s.txs, x, s.base, s.commits, Durable(s));
  }

  lemma {:induction false} AddTx(txs: map<nat, Tx>, xid: nat, base: map<Key, Image>, commits: seq<Commit>, done: set<nat>)
    requires OwnedOk(txs, base, commits, map[]) && TxHeaders(txs, done) && TxNames(txs)
    ensures var t := txs[xid := Tx(map[], {})]; OwnedOk(t, base, commits, map[]) && TxHeaders(t, done) && TxNames(t)
  {
    hide Shared, HeadersIn;
  }

  /** A fresh id has committed nothing. */
  lemma {:induction false} XidsLogged(s: State, x: nat)
    requires LogOk(s) && x >= s.nextXID
    ensures x !in Xids(s.commits) && NoWrites(s.log, x)
  {
    CommittedIs(s);
    CommittedLogged(s.log, x);
  }

  lemma {:induction false} CommittedLogged(log: seq<Record>, x: nat)
    requires forall i :: 0 <= i < |log| ==> log[i].xid != x
    ensures x !in Committed(log)
  {
    if log != [] {
      CommittedLogged(log[..|log| - 1], x);
    }
  }

  lemma {:induction false} WriteTx(txs: map<nat, Tx>, xid: nat, k: Key, image: Image, base: map<Key, Image>, commits: seq<Commit>,
                pending: map<Key, Image>, done: set<nat>, nextXID: nat, ids: set<nat>, log: seq<Record>)
    requires xid in txs && OwnedOk(txs, base, commits, pending) && TxHeaders(txs, done) && TxNames(txs) && TxIds(txs, nextXID, ids, log)
    requires |k.file| <= NAME_SIZE && (Shared(base, commits, k) || k in txs[xid].owned) && HeadersIn(image, done + {xid})
    ensures var t := txs[xid := txs[xid].(dirty := txs[xid].dirty[k := image])];
      OwnedOk(t, base, commits, pending) && TxHeaders(t, done) && TxNames(t) && TxIds(t, nextXID, ids, log)
  {
    hide Shared, HeadersIn, NoWrites, OwnedOk;
    WriteOwned(txs, xid, k, image, base, commits, pending);
    var t := txs[xid := txs[xid].(dirty := txs[xid].dirty[k := image])];
    forall x, p | x in t && p in t[x].dirty ensures HeadersIn(t[x].dirty[p], done + {x}) {
      assert x != xid ==> t[x] == txs[x];
    }
  }

  lemma {:induction false} WriteOwned(txs: map<nat, Tx>, xid: nat, k: Key, image: Image, base: map<Key, Image>, commits: seq<Commit>, pending: map<Key, Image>)
    requires xid in txs && OwnedOk(txs, base, commits, pending)
    requires Shared(base, commits, k) || k in txs[xid].owned
    ensures OwnedOk(txs[xid := txs[xid].(dirty := txs[xid].dirty[k := image])], base, commits, pending)
  {
    hide Shared;
    var t := txs[xid := txs[xid].(dirty := txs[xid].dirty[k := image])];
    forall x, y, p | x in t && y in t && x != y && p in t[x].owned ensures p !in t[y].owned && p !in t[y].dirty {
      assert t[x].owned == txs[x].owned && t[y].owned == txs[y].owned;
      assert p !in txs[y].owned && p !in txs[y].dirty;
    }
  }

  lemma {:induction false} WriteOk(s: State, xid: nat, k: Key, image: Image)
    requires Inv(s) && Enabled(s, Write(xid, k, image))
    ensures Inv(Next(s, Write(xid, k, image)))
  {
    hide LogIsCommits, Counted, CommitsOrdered, Committed, Xids, Shared, HeadersIn, DiskOk, DiskHeaders, LogHeaders,
         PendingHeaders, Derived, OwnedOk, TxIds, TxNames, TxHeaders;
    DerivedHeaders(s, xid, image);
    WriteTx(s.txs, xid, k, image, s.base, s.commits, Pending(s.phase), Durable(s), s.nextXID, Xids(s.commits), s.log);
  }

  /** What a statement stores names only its own id and ids that are durably committed. */
  lemma {:induction false} DerivedHeaders(s: State, xid: nat, image: Image)
    requires s.synced <= |s.log| && HeadersOk(s) && xid in s.txs && Derived(s, xid, s.txs[xid], image)
    ensures HeadersIn(image, Durable(s) + {xid})
  {
    hide Committed, LogHeaders;
    forall i | 0 <= i < |image.rows|
      ensures image.rows[i].xmin in Durable(s) + {xid} && (image.rows[i].xmax == 0 || image.rows[i].xmax in Durable(s) + {xid})
    {
      var h := image.rows[i];
      if SeesHeader(s, s.txs[xid], h) {
        SeenHeader(s, xid, h);
      } else if h.xmax == xid && exists was :: SeesHeader(s, s.txs[xid], was) && was.xmin == h.xmin {
        var was :| SeesHeader(s, s.txs[xid], was) && was.xmin == h.xmin;
        SeenHeader(s, xid, was);
      }
    }
  }

  lemma {:induction false} SeenHeader(s: State, xid: nat, h: Header)
    requires s.synced <= |s.log| && HeadersOk(s) && xid in s.txs && SeesHeader(s, s.txs[xid], h)
    ensures h.xmin in Durable(s) + {xid} && (h.xmax == 0 || h.xmax in Durable(s) + {xid})
  {
    var k, page :| Sees(s, s.txs[xid], k, page) && h in page.rows;
    assert HeadersIn(page, Durable(s) + {xid}) by {
      if k !in s.txs[xid].dirty {
        HeadersMore(page, Durable(s), Durable(s) + {xid});
      }
    }
  }

  lemma {:induction false} AllocateTx(txs: map<nat, Tx>, xid: nat, k: Key, base: map<Key, Image>, commits: seq<Commit>,
                   pending: map<Key, Image>, done: set<nat>, nextXID: nat, ids: set<nat>, log: seq<Record>)
    requires xid in txs && OwnedOk(txs, base, commits, pending) && TxHeaders(txs, done) && TxNames(txs) && TxIds(txs, nextXID, ids, log)
    requires !Shared(base, commits, k) && k !in pending
    requires forall x :: x in txs ==> k !in txs[x].owned && k !in txs[x].dirty
    ensures var t := txs[xid := txs[xid].(owned := txs[xid].owned + {k})];
      OwnedOk(t, base, commits, pending) && TxHeaders(t, done) && TxNames(t) && TxIds(t, nextXID, ids, log)
  {
    hide Shared, HeadersIn, NoWrites, OwnedOk;
    AllocateOwned(txs, xid, k, base, commits, pending);
    var t := txs[xid := txs[xid].(owned := txs[xid].owned + {k})];
    assert forall x :: x in t ==> x in txs && t[x].dirty == txs[x].dirty;
  }

  lemma {:induction false} AllocateOwned(txs: map<nat, Tx>, xid: nat, k: Key, base: map<Key, Image>, commits: seq<Commit>, pending: map<Key, Image>)
    requires xid in txs && OwnedOk(txs, base, commits, pending)
    requires !Shared(base, commits, k) && k !in pending
    requires forall x :: x in txs ==> k !in txs[x].owned && k !in txs[x].dirty
    ensures OwnedOk(txs[xid := txs[xid].(owned := txs[xid].owned + {k})], base, commits, pending)
  {
    hide Shared;
    var t := txs[xid := txs[xid].(owned := txs[xid].owned + {k})];
    forall x, y, p | x in t && y in t && x != y && p in t[x].owned ensures p !in t[y].owned && p !in t[y].dirty {
      assert p != k ==> p in txs[x].owned;
    }
  }

  lemma {:induction false} AllocateOk(s: State, xid: nat, k: Key)
    requires Inv(s) && Enabled(s, Allocate(xid, k))
    ensures Inv(Next(s, Allocate(xid, k)))
  {
    hide LogIsCommits, Counted, CommitsOrdered, Committed, Xids, Shared, HeadersIn, DiskOk, LogHeaders,
         PendingHeaders, OwnedOk, TxIds, TxNames, TxHeaders;
    UnsharedChange(s.base, s.disk, s.disk[k := BLANK], s.commits, s.phase);
    BlankHeaders(Durable(s));
    AllocateTx(s.txs, xid, k, s.base, s.commits, Pending(s.phase), Durable(s), s.nextXID, Xids(s.commits), s.log);
  }

  lemma {:induction false} BlankHeaders(done: set<nat>)
    ensures HeadersIn(BLANK, done)
  {
  }

  /** Pages that are not shared can be overwritten at will. */
  lemma {:induction false} UnsharedChange(base: map<Key, Image>, disk: map<Key, Image>, disk': map<Key, Image>, commits: seq<Commit>, phase: Phase)
    requires DiskOk(base, disk, commits, phase)
    requires forall k :: Shared(base, commits, k) && k in disk ==> k in disk' && disk'[k] == disk[k]
    ensures DiskOk(base, disk', commits, phase)
  {
    forall k ensures PageOk(base, disk', Apply(OnDisk(commits, phase, k)), phase != Down, k) {
      assert PageOk(base, disk, Apply(OnDisk(commits, phase, k)), phase != Down, k);
    }
  }

  /** Taking a transaction out of the table; its pages may become the pending ones. */
  lemma {:induction false} RemoveTx(txs: map<nat, Tx>, xid: nat, base: map<Key, Image>, commits: seq<Commit>, done: set<nat>,
                 nextXID: nat, ids: set<nat>, log: seq<Record>)
    requires xid in txs && OwnedOk(txs, base, commits, map[]) && TxHeaders(txs, done) && TxNames(txs) && TxIds(txs, nextXID, ids, log)
    ensures var t := txs - {xid};
      && OwnedOk(t, base, commits, txs[xid].dirty) && OwnedOk(t, base, commits, map[])
      && TxHeaders(t, done) && TxNames(t) && TxIds(t, nextXID, ids, log)
    ensures forall k :: k in txs[xid].dirty ==> HeadersIn(txs[xid].dirty[k], done + {xid})
    ensures ShortNames(txs[xid].dirty) && xid < nextXID && xid !in ids && NoWrites(log, xid)
    ensures forall k :: k in txs[xid].owned ==> !Shared(base, commits, k)
  {
    hide Shared, HeadersIn, NoWrites, ShortNames;
  }

  lemma {:induction false} StartCommitOk(s: State, xid: nat)
    requires Inv(s) && Enabled(s, StartCommit(xid))
    ensures Inv(Next(s, StartCommit(xid)))
  {
    hide LogIsCommits, Counted, CommitsOrdered, Committed, Xids, Shared, HeadersIn, DiskHeaders, LogHeaders,
         OwnedOk, TxIds, TxNames, TxHeaders, NoWrites, ShortNames, DiskOk;
    var t := Next(s, StartCommit(xid));
    RemoveTx(s.txs, xid, s.base, s.commits, Durable(s), s.nextXID, Xids(s.commits), s.log);
    assert s.log[..|s.log|] == s.log && s.log[|s.log|..] == [];
    SamePages(s, t);
  }

  /** The disk condition only looks at which commits are on disk. */
  lemma {:induction false} SamePages(s: State, t: State)
    requires DiskOk(s.base, s.disk, s.commits, s.phase) && s.phase != Down && t.phase != Down
    requires t.base == s.base && t.disk == s.disk
    requires forall k :: OnDisk(t.commits, t.phase, k) == OnDisk(s.commits, s.phase, k)
    ensures DiskOk(t.base, t.disk, t.commits, t.phase)
  {
    forall k ensures PageOk(t.base, t.disk, Apply(OnDisk(t.commits, t.phase, k)), t.phase != Down, k) {
      assert PageOk(s.base, s.disk, Apply(OnDisk(s.commits, s.phase, k)), s.phase != Down, k);
    }
  }

  lemma {:induction false} LogWriteOk(s: State, k: Key)
    requires Inv(s) && Enabled(s, LogWrite(k))
    ensures Inv(Next(s, LogWrite(k)))
  {
    hide LogIsCommits, CommitsOrdered, Committed, Xids, Shared, HeadersIn, DiskHeaders, LogHeaders, Counted,
         OwnedOk, TxNames, TxHeaders, NoWrites, LoggedSoFar, DiskOk;
    var t := Next(s, LogWrite(k));
    var r := Record(s.nextLSN, s.phase.xid, WriteRecord, k, s.phase.writes[k]);
    assert Cut(k.file) == k.file;
    AppendOk(s, t, r);
    LoggedMore(s.log, s.phase.start, r, s.phase.writes, s.phase.todo, k);
    SamePages(s, t);
  }

  lemma {:induction false} LoggedMore(log: seq<Record>, start: nat, r: Record, writes: map<Key, Image>, todo: set<Key>, k: Key)
    requires start <= |log| && LoggedSoFar(log[start..], r.xid, writes, todo) && NoWrites(log[..start], r.xid)
    requires r.kind == WriteRecord && k in writes && r.key == k && r.image == writes[k]
    ensures LoggedSoFar((log + [r])[start..], r.xid, writes, todo - {k}) && NoWrites((log + [r])[..start], r.xid)
  {
    var suf := log[start..];
    assert (log + [r])[start..] == suf + [r] && (log + [r])[..start] == log[..start];
    forall p | p in writes && p !in todo - {k} ensures exists i :: 0 <= i < |suf + [r]| && (suf + [r])[i].key == p {
      if p == k {
        assert (suf + [r])[|suf|].key == p;
      } else {
        var i :| 0 <= i < |suf| && suf[i].key == p;
        assert (suf + [r])[i].key == p;
      }
    }
  }

  lemma {:induction false} RollbackOk(s: State, xid: nat)
    requires Inv(s) && Enabled(s, Rollback(xid))
    ensures Inv(Next(s, Rollback(xid)))
  {
    hide LogIsCommits, Committed, Xids, Shared, HeadersIn, DiskOk, LogHeaders, Counted,
         OwnedOk, TxNames, TxHeaders, NoWrites;
    var t := Next(s, Rollback(xid));
    RemoveTx(s.txs, xid, s.base, s.commits, Durable(s), s.nextXID, Xids(s.commits), s.log);
    AppendOk(s, t, Record(s.nextLSN, xid, RollbackRecord, NO_KEY, NO_IMAGE));
    UnsharedChange(s.base, s.disk, t.disk, s.commits, s.phase);
    BlankHeaders(Durable(s));
  }

  lemma {:induction false} LogCommitOk(s: State)
    requires Inv(s) && Enabled(s, LogCommit)
    ensures Inv(Next(s, LogCommit))
  {
    hide LogIsCommits, Committed, HeadersIn, DiskHeaders, LogHeaders, Images, Xids, Apply, DiskOk, OwnedOk,
         TxHeaders, TxNames, TxIds, ShortNames, NoWrites, LoggedSoFar;
    var t, x, w := Next(s, LogCommit), s.phase.xid, s.phase.writes;
    var c := Record(s.nextLSN, x, CommitRecord, NO_KEY, NO_IMAGE);
    CommittedIs(s);
    CommitImages(s.log, s.phase.start, x, w, c);
    CommitKeepsCommits(s.log, s.commits, c, w);
    assert t.log[..t.synced] == s.log[..s.synced];
    LogHeadersCommit(s.log, c);
    LastCommit(s.commits, Commit(x, w, |t.log|));
    CommitDisk(s, t);
    OthersAtCommit(s, t, c);
  }

  /** The other transactions notice a commit only through the pages it makes shared. */
  lemma {:induction false} OthersAtCommit(s: State, t: State, c: Record)
    requires s.phase.Logging? && s.phase.xid !in s.txs
    requires t.log == s.log + [c] && c.kind == CommitRecord && t.txs == s.txs && t.base == s.base && t.nextXID == s.nextXID
    requires Xids(t.commits) == Xids(s.commits) + {s.phase.xid} && Apply(t.commits) == Apply(s.commits) + s.phase.writes
    requires TxIds(s.txs, s.nextXID, Xids(s.commits), s.log) && OwnedOk(s.txs, s.base, s.commits, s.phase.writes)
    ensures TxIds(t.txs, t.nextXID, Xids(t.commits), t.log) && OwnedOk(t.txs, t.base, t.commits, s.phase.writes)
  {
    hide Apply, Xids;
  }

  lemma {:induction false} LastCommit(commits: seq<Commit>, c: Commit)
    ensures (commits + [c])[..|commits|] == commits
    ensures Xids(commits + [c]) == Xids(commits) + {c.xid}
    ensures Apply(commits + [c]) == Apply(commits) + c.writes
  {
    assert (commits + [c])[..|commits|] == commits;
  }

  lemma {:induction false} LogHeadersCommit(log: seq<Record>, c: Record)
    requires LogHeaders(log) && c.kind == CommitRecord
    ensures LogHeaders(log + [c])
  {
    forall i | 0 <= i < |log + [c]| && (log + [c])[i].kind == WriteRecord
      ensures HeadersIn((log + [c])[i].image, Committed((log + [c])[..i]) + {(log + [c])[i].xid})
    {
      assert (log + [c])[..i] == log[..i];
    }
  }

  /** Until its pages are flushed, a new commit is not on disk anywhere. */
  lemma {:induction false} CommitDisk(s: State, t: State)
    requires s.phase.Logging? && DiskOk(s.base, s.disk, s.commits, s.phase)
    requires t.base == s.base && t.disk == s.disk && t.phase == Logged(s.phase.xid, s.phase.writes)
    requires t.commits == s.commits + [Commit(s.phase.xid, s.phase.writes, |t.log|)]
    ensures DiskOk(t.base, t.disk, t.commits, t.phase)
  {
    LastCommit(s.commits, t.commits[|s.commits|]);
    forall k ensures PageOk(t.base, t.disk, Apply(OnDisk(t.commits, t.phase, k)), t.phase != Down, k) {
      assert PageOk(s.base, s.disk, Apply(OnDisk(s.commits, s.phase, k)), s.phase != Down, k);
    }
  }

  lemma {:induction false} SyncOk(s: State)
    requires Inv(s) && Enabled(s, Sync)
    ensures Inv(Next(s, Sync))
  {
    hide LogIsCommits, Counted, Committed, HeadersIn, DiskHeaders, LogHeaders, Xids, Apply, DiskOk, OwnedOk,
         TxHeaders, TxNames, TxIds, ShortNames, PendingHeaders, Shared;
    var t := Next(s, Sync);
    assert t.log[..t.synced] == s.log && s.log[..|s.log|] == s.log;
    CommittedGrows(s.log, s.synced, |s.log|);
    DurableMore(s, t, Durable(s), Durable(t));
    SamePages(s, t);
  }

  lemma {:induction false} DurableMore(s: State, t: State, done: set<nat>, more: set<nat>)
    requires done <= more && t.disk == s.disk && t.txs == s.txs && s.phase.Logged?
    requires t.phase == Flushing(s.phase.xid, s.phase.writes, s.phase.writes.Keys)
    requires DiskHeaders(s.disk, done) && TxHeaders(s.txs, done) && PendingHeaders(s.phase, done)
    ensures DiskHeaders(t.disk, more) && TxHeaders(t.txs, more) && PendingHeaders(t.phase, more)
  {
    hide HeadersIn;
    forall k | k in t.disk ensures HeadersIn(t.disk[k], more) {
      HeadersMore(t.disk[k], done, more);
    }
    forall x, k | x in t.txs && k in t.txs[x].dirty ensures HeadersIn(t.txs[x].dirty[k], more + {x}) {
      HeadersMore(t.txs[x].dirty[k], done + {x}, more + {x});
    }
    forall k | k in Pending(t.phase) ensures HeadersIn(Pending(t.phase)[k], more + {t.phase.xid}) {
      assert k in Pending(s.phase) && Pending(s.phase)[k] == Pending(t.phase)[k];
      HeadersMore(Pending(t.phase)[k], done + {t.phase.xid}, more + {t.phase.xid});
    }
  }

  lemma {:induction false} FlushPageOk(s: State, k: Key)
    requires Inv(s) && Enabled(s, FlushPage(k))
    ensures Inv(Next(s, FlushPage(k)))
  {
    hide LogIsCommits, Counted, Committed, HeadersIn, LogHeaders, Xids, Apply, DiskOk, OwnedOk,
         TxHeaders, TxNames, TxIds, ShortNames, Shared;
    var t := Next(s, FlushPage(k));
    CommittedIs(s);
    assert s.log[..s.synced] == s.log;
    LastCommitXid(s.commits);
    HeadersMore(s.phase.writes[k], Durable(s) + {s.phase.xid}, Durable(s));
    FlushDisk(s, t, k);
  }

  lemma {:induction false} LastCommitXid(commits: seq<Commit>)
    requires commits != []
    ensures commits[|commits| - 1].xid in Xids(commits)
  {
  }

  /** Flushing a page puts the last commit's after-image of that page on disk. */
  lemma {:induction false} FlushDisk(s: State, t: State, k: Key)
    requires s.phase.Flushing? && k in s.phase.todo && k in s.phase.writes
    requires s.commits != [] && s.commits[|s.commits| - 1].writes == s.phase.writes
    requires DiskOk(s.base, s.disk, s.commits, s.phase)
    requires t.base == s.base && t.commits == s.commits && t.disk == s.disk[k := s.phase.writes[k]]
    requires t.phase == Flushing(s.phase.xid, s.phase.writes, s.phase.todo - {k})
    ensures DiskOk(t.base, t.disk, t.commits, t.phase)
  {
    forall p ensures PageOk(t.base, t.disk, Apply(OnDisk(t.commits, t.phase, p)), t.phase != Down, p) {
      assert PageOk(s.base, s.disk, Apply(OnDisk(s.commits, s.phase, p)), s.phase != Down, p);
    }
  }

  lemma {:induction false} MarkCommittedOk(s: State)
    requires Inv(s) && Enabled(s, MarkCommitted)
    ensures Inv(Next(s, MarkCommitted))
  {
    hide LogIsCommits, Counted, Committed, HeadersIn, LogHeaders, Xids, Apply, DiskOk, DiskHeaders,
         TxHeaders, TxNames, TxIds, Shared;
    var t := Next(s, MarkCommitted);
    CommittedIs(s);
    assert s.log[..s.synced] == s.log;
    LastCommitXid(s.commits);
    SamePages(s, t);
  }

  lemma {:induction false} CrashOk(s: State, keep: nat)
    requires Inv(s) && Enabled(s, Crash(keep))
    ensures Inv(Next(s, Crash(keep)))
  {
    hide LogIsCommits, Committed, HeadersIn, Xids, Apply, DiskOk, DiskHeaders, LogHeaders;
    var t := Next(s, Crash(keep));
    CrashKeepsCommits(s.log, s.commits, keep);
    CommittedGrows(s.log, s.synced, keep);
    assert t.log[..t.synced] == s.log[..keep];
    CrashHeaders(s, keep, Durable(s), Durable(t));
    CrashDisk(s, t, keep);
  }

  lemma {:induction false} CrashHeaders(s: State, keep: nat, done: set<nat>, more: set<nat>)
    requires keep <= |s.log| && LogHeaders(s.log) && DiskHeaders(s.disk, done) && done <= more
    ensures LogHeaders(s.log[..keep]) && DiskHeaders(s.disk, more)
  {
    var log := s.log[..keep];
    forall i | 0 <= i < |log| && log[i].kind == WriteRecord
      ensures HeadersIn(log[i].image, Committed(log[..i]) + {log[i].xid})
    {
      assert log[..i] == s.log[..i] && log[i] == s.log[i];
    }
  }

  /** A crash can only lose a commit none of whose pages has reached the disk. */
  lemma {:induction false} CrashDisk(s: State, t: State, keep: nat)
    requires LogOk(s) && PhaseOk(s) && s.synced <= keep <= |s.log| && DiskOk(s.base, s.disk, s.commits, s.phase)
    requires t.base == s.base && t.disk == s.disk && t.phase == Down && t.commits == Within(s.commits, keep)
    ensures DiskOk(t.base, t.disk, t.commits, t.phase)
  {
    hide LogIsCommits, Counted;
    CrashLoses(s, keep);
    forall k ensures PageOk(t.base, t.disk, Apply(OnDisk(t.commits, t.phase, k)), false, k) {
      assert PageOk(s.base, s.disk, Apply(OnDisk(s.commits, s.phase, k)), s.phase != Down, k);
    }
  }

  /** Every commit survives, except that the last may be lost while its commit record is unsynced. */
  lemma {:induction false} CrashLoses(s: State, keep: nat)
    requires LogOk(s) && PhaseOk(s) && s.synced <= keep <= |s.log|
    ensures Within(s.commits, keep) == s.commits
         || (s.phase.Logged? && s.commits != [] && Within(s.commits, keep) == s.commits[..|s.commits| - 1])
  {
    hide LogIsCommits, Counted;
    WithinIsPrefix(s.commits, keep);
    var w, n := Within(s.commits, keep), |s.commits|;
    assert s.commits[..n] == s.commits;
    if s.phase.Logged? {
      if n > 1 {
        assert s.commits[n - 2].at <= keep;
      }
      assert |w| >= n - 1;
    } else {
      if n > 0 {
        assert s.commits[n - 1].at <= keep;
      }
      assert |w| == n;
    }
  }

  lemma {:induction false} RecoverPageOk(s: State, k: Key)
    requires Inv(s) && Enabled(s, RecoverPage(k))
    ensures Inv(Next(s, RecoverPage(k)))
  {
    hide LogIsCommits, Counted, Committed, Xids, Apply, LogHeaders, Images, HeadersIn;
    var t := Next(s, RecoverPage(k));
    CommittedIs(s);
    assert s.log[..s.synced] == s.log;
    ImageHeaders(s.log, k);
    RecoverDisk(s, t, k);
  }

  /** Recovery only writes images whose headers are committed. */
  lemma {:induction false} ImageHeaders(log: seq<Record>, k: Key)
    requires LogHeaders(log) && k in Images(log)
    ensures HeadersIn(Images(log)[k], Committed(log))
  {
    var i := ReplaySource(log, Committed(log), k);
    CommittedGrows(log, i, |log|);
    assert log[..|log|] == log;
    HeadersMore(log[i].image, Committed(log[..i]) + {log[i].xid}, Committed(log));
  }

  lemma {:induction false} RecoverDisk(s: State, t: State, k: Key)
    requires s.phase == Down && t.phase == Down && DiskOk(s.base, s.disk, s.commits, s.phase)
    requires k in Apply(s.commits) && t.base == s.base && t.commits == s.commits
    requires t.disk == s.disk[k := Apply(s.commits)[k]]
    ensures DiskOk(t.base, t.disk, t.commits, t.phase)
  {
    forall p ensures PageOk(t.base, t.disk, Apply(OnDisk(t.commits, t.phase, p)), false, p) {
      assert PageOk(s.base, s.disk, Apply(OnDisk(s.commits, s.phase, p)), false, p);
    }
  }

  lemma {:induction false} ReopenOk(s: State)
    requires Inv(s) && Enabled(s, Reopen)
    ensures Inv(Next(s, Reopen))
  {
    hide LogIsCommits, Committed, Xids, Apply, LogHeaders, Images, HeadersIn;
    var t := Next(s, Reopen);
    CommittedIs(s);
    assert s.log[..s.synced] == s.log;
    MaxBounds(s.log);
    forall k | k in Images(s.log) ensures HeadersIn(Images(s.log)[k], Durable(s)) {
      ImageHeaders(s.log, k);
    }
    ReopenDisk(s, t);
  }

  lemma {:induction false} ReopenDisk(s: State, t: State)
    requires s.phase == Down && t.phase == Idle && DiskOk(s.base, s.disk, s.commits, s.phase)
    requires t.base == s.base && t.commits == s.commits && t.disk == s.disk + Apply(s.commits)
    ensures DiskOk(t.base, t.disk, t.commits, t.phase)
  {
    forall p ensures PageOk(t.base, t.disk, Apply(OnDisk(t.commits, t.phase, p)), true, p) {
      assert PageOk(s.base, s.disk, Apply(OnDisk(s.commits, s.phase, p)), false, p);
    }
  }

  lemma {:induction false} StepOk(s: State, step: Step)
    requires Inv(s) && Enabled(s, step)
    ensures Inv(Next(s, step))
  {
    hide Inv, Next;
    match step {
      case Begin => BeginOk(s);
      case Write(xid, k, image) => WriteOk(s, xid, k, image);
      case Allocate(xid, k) => AllocateOk(s, xid, k);
      case StartCommit(xid) => StartCommitOk(s, xid);
      case LogWrite(k) => LogWriteOk(s, k);
      case LogCommit => LogCommitOk(s);
      case Sync => SyncOk(s);
      case FlushPage(k) => FlushPageOk(s, k);
      case MarkCommitted => MarkCommittedOk(s);
      case Rollback(xid) => RollbackOk(s, xid);
      case Crash(keep) => CrashOk(s, keep);
      case RecoverPage(k) => RecoverPageOk(s, k);
      case Reopen => ReopenOk(s);
    }
  }

  // ---------------------------------------------------------------- runs

  /** A freshly opened database whose table files hold base; the tables are empty. */
  function Start(base: map<Key, Image>): State {
    State([], 0, 1, 1, base, base, map[], Idle, {}, {}, [])
  }

  ghost predicate Leads(s: State, step: Step, t: State) {
    Enabled(s, step) && t == Next(s, step)
  }

  /** A run: the states passed through when doing the steps one after the other. */
  ghost predicate Run(base: map<Key, Image>, steps: seq<Step>, states: seq<State>) {
    && (forall k :: k in base ==> base[k].rows == [])
    && |states| == |steps| + 1 && states[0] == Start(base)
    && forall i :: 0 <= i < |steps| ==> Leads(states[i], steps[i], states[i + 1])
  }

  lemma {:induction false} StartOk(base: map<Key, Image>)
    requires forall k :: k in base ==> base[k].rows == []
    ensures Inv(Start(base))
  {
    var s := Start(base);
    assert s.log[..0] == [];
    forall n | 0 <= n <= |s.log| ensures PrefixIs(s.log, s.commits, n) {
    }
    forall k ensures PageOk(s.base, s.disk, Apply(OnDisk(s.commits, s.phase, k)), true, k) {
    }
  }

  lemma {:induction false} RunOk(base: map<Key, Image>, steps: seq<Step>, states: seq<State>, n: nat)
    requires Run(base, steps, states) && n < |states|
    ensures Inv(states[n]) && states[n].base == base
  {
    hide Inv, Enabled, Next;
    if n == 0 {
      StartOk(base);
    } else {
      RunOk(base, steps, states, n - 1);
      assert Leads(states[n - 1], steps[n - 1], states[n]);
      StepOk(states[n - 1], steps[n - 1]);
      StepFrame(states[n - 1], steps[n - 1]);
    }
  }

  /** No step touches the initial content, or takes back an acknowledgement. */
  lemma {:induction false} StepFrame(s: State, step: Step)
    requires Enabled(s, step)
    ensures Next(s, step).base == s.base && s.acked <= Next(s, step).acked
  {
    hide Committed, Within, Images, Apply;
  }

  /** Durability and atomicity.  At any point of any run, however often and wherever it crashed
      before, an idle database holds on every page the result of the surviving commits applied
      one whole transaction after another; every acknowledged commit is among them, no other id
      is visible, and recovering once more would change nothing. */
  lemma {:induction false} RunsAreAtomic(base: map<Key, Image>, steps: seq<Step>, states: seq<State>, n: nat)
    requires Run(base, steps, states) && n < |states| && states[n].phase == Idle
    ensures var t := states[n];
      && (forall k :: k in Apply(t.commits) ==> k in t.disk && t.disk[k] == Apply(t.commits)[k])
      && (forall k :: k in base && k !in Apply(t.commits) ==> k in t.disk && t.disk[k] == base[k])
      && t.acked <= Xids(t.commits) && t.marked == Xids(t.commits) == Committed(t.log)
      && t.disk + Images(t.log) == t.disk
  {
    hide LogIsCommits, Committed, Xids, Apply, HeadersOk, OwnedOk, TxIds, TxNames, Counted, Images, Run;
    RunOk(base, steps, states, n);
    var t := states[n];
    CommittedIs(t);
    forall k
      ensures k in Apply(t.commits) ==> k in t.disk && t.disk[k] == Apply(t.commits)[k]
      ensures k in base && k !in Apply(t.commits) ==> k in t.disk && t.disk[k] == base[k]
    {
      assert PageOk(t.base, t.disk, Apply(OnDisk(t.commits, t.phase, k)), true, k);
    }
  }

  /** A commit whose record was synced is never lost again, nor is its write set changed. */
  lemma {:induction false} SyncedCommitStays(s: State, step: Step, i: nat)
    requires Inv(s) && Enabled(s, step) && i < |s.commits| && s.commits[i].at <= s.synced
    ensures var t := Next(s, step); i < |t.commits| && t.commits[i] == s.commits[i] && t.commits[i].at <= t.synced
  {
    hide LogIsCommits, Committed, Xids, Apply, HeadersOk, OwnedOk, TxIds, TxNames, Counted, Images, DiskOk, TxsOk;
    if step.Crash? {
      WithinIsPrefix(s.commits, step.keep);
    }
  }

  /** For every run and every point after a commit record was synced, that transaction is part
      of what the database holds, in the place where it was committed. */
  lemma {:induction false} DurableForEver(base: map<Key, Image>, steps: seq<Step>, states: seq<State>, m: nat, n: nat, i: nat)
    requires Run(base, steps, states) && m <= n < |states|
    requires i < |states[m].commits| && states[m].commits[i].at <= states[m].synced
    ensures var t := states[n];
      i < |t.commits| && t.commits[i] == states[m].commits[i] && t.commits[i].at <= t.synced
    decreases n
  {
    hide Inv, Enabled, Next;
    if m < n {
      DurableForEver(base, steps, states, m, n - 1, i);
      RunOk(base, steps, states, n - 1);
      assert Leads(states[n - 1], steps[n - 1], states[n]);
      SyncedCommitStays(states[n - 1], steps[n - 1], i);
    }
  }

  /** No-steal: at every point of every run, also between a crash and recovery, every row header
      on disk has a durably committed xmin, and an xmax that is 0 or durably committed. */
  lemma {:induction false} NoSteal(base: map<Key, Image>, steps: seq<Step>, states: seq<State>, n: nat)
    requires Run(base, steps, states) && n < |states|
    ensures var t := states[n];
      t.synced <= |t.log| && forall k :: k in t.disk ==> HeadersIn(t.disk[k], Committed(t.log[..t.synced]))
  {
    hide Run, Committed, LogIsCommits, Apply, OwnedOk, TxIds;
    RunOk(base, steps, states, n);
  }

  /** Log counters: over any number of sessions LSNs grow with the position in the log, and the
      id handed out next occurs nowhere in it. */
  lemma {:induction false} CountersAhead(base: map<Key, Image>, steps: seq<Step>, states: seq<State>, n: nat)
    requires Run(base, steps, states) && n < |states|
    ensures var t := states[n];
      Counted(t.log, t.nextLSN, t.nextXID) && forall i :: 0 <= i < |t.log| ==> t.log[i].xid != t.nextXID
  {
    hide Run, Committed, LogIsCommits, Apply, OwnedOk, TxIds;
    RunOk(base, steps, states, n);
  }

  // ---------------------------------------------------------------- commitTx

  /** What reaches the files: a log record, an fsync of the log, a page. */
  datatype Event = Appended(r: Record) | Synced | Wrote(key: Key, image: Image)

  /** The log, and the pages of the table files, with everything done to them in order. */
  class Files {
    const wal: Wal
    var disk: map<Key, Image>
    ghost var events: seq<Event>

    constructor (wal: Wal, disk: map<Key, Image>)
      ensures this.wal == wal && this.disk == disk && events == []
    {
      this.wal, this.disk, events := wal, disk, [];
    }

    method LogWrite(xid: nat, key: Key, image: Image)
      requires wal.Valid() && xid < wal.nextXID
      modifies this, wal
      ensures wal.Valid() && wal.nextXID == old(wal.nextXID) && wal.nextLSN == old(wal.nextLSN) + 1 && disk == old(disk)
      ensures var r := Record(old(wal.nextLSN), xid, WriteRecord, Key(Cut(key.file), key.page), image);
        wal.Log() == old(wal.Log()) + [r] && events == old(events) + [Appended(r)]
    {
      ghost var r := Record(wal.nextLSN, xid, WriteRecord, Key(Cut(key.file), key.page), image);
      wal.AppendWrite(xid, key, image);
      events := events + [Appended(r)];
    }

    method LogCommit(xid: nat)
      requires wal.Valid() && xid < wal.nextXID
      modifies this, wal
      ensures wal.Valid() && wal.nextXID == old(wal.nextXID) && wal.nextLSN == old(wal.nextLSN) + 1 && disk == old(disk)
      ensures var r := Record(old(wal.nextLSN), xid, CommitRecord, NO_KEY, NO_IMAGE);
        wal.Log() == old(wal.Log()) + [r] && events == old(events) + [Appended(r)]
    {
      ghost var r := Record(wal.nextLSN, xid, CommitRecord, NO_KEY, NO_IMAGE);
      wal.AppendEnd(xid, CommitRecord);
      events := events + [Appended(r)];
    }

    method Sync()
      modifies this
      ensures disk == old(disk) && events == old(events) + [Synced]
    {
      events := events + [Synced];
    }

    method WritePage(key: Key, image: Image)
      modifies this
      ensures disk == old(disk)[key := image] && events == old(events) + [Wrote(key, image)]
    {
      disk := disk[key := image];
      events := events + [Wrote(key, image)];
    }
  }

  /** The event leads from one state's files to the other's. */
  ghost predicate Mirrors(s: State, e: Event, t: State) {
    match e
    case Appended(r) => t.log == s.log + [r] && t.disk == s.disk && t.synced == s.synced
    case Synced => t.log == s.log && t.disk == s.disk && t.synced == |s.log|
    case Wrote(k, image) => t.log == s.log && t.disk == s.disk[k := image] && t.synced == s.synced
  }

  /** Event by event, what happened to the files are steps of the protocol. */
  ghost predicate Follows(states: seq<State>, steps: seq<Step>, events: seq<Event>) {
    && |states| == |steps| + 1 && |events| == |steps|
    && (forall n :: 0 <= n < |steps| ==> Leads(states[n], steps[n], states[n + 1]))
    && (forall n :: 0 <= n < |events| ==> Mirrors(states[n], events[n], states[n + 1]))
  }

  lemma {:induction false} FollowsMore(states: seq<State>, steps: seq<Step>, events: seq<Event>, step: Step, e: Event)
    requires Follows(states, steps, events) && Enabled(states[|steps|], step) && Mirrors(states[|steps|], e, Next(states[|steps|], step))
    ensures Follows(states + [Next(states[|steps|], step)], steps + [step], events + [e])
  {
    hide Enabled, Next, Mirrors;
    var t := Next(states[|steps|], step);
    var states', steps', events' := states + [t], steps + [step], events + [e];
    forall n | 0 <= n < |steps'| ensures Leads(states'[n], steps'[n], states'[n + 1]) && Mirrors(states'[n], events'[n], states'[n + 1]) {
      if n < |steps| {
        assert Leads(states[n], steps[n], states[n + 1]) && Mirrors(states[n], events[n], states[n + 1]);
      }
    }
  }

  /** A crash may come between any two events: every state on the way keeps the protocol's invariant. */
  lemma {:induction false} FollowsOk(states: seq<State>, steps: seq<Step>, events: seq<Event>, n: nat)
    requires Follows(states, steps, events) && n < |states| && Inv(states[0])
    ensures Inv(states[n])
  {
    hide Inv, Mirrors;
    if n > 0 {
      FollowsOk(states, steps, events, n - 1);
      assert Leads(states[n - 1], steps[n - 1], states[n - 1 + 1]);
      StepOk(states[n - 1], steps[n - 1]);
    }
  }

  /** The files as the protocol's state has them. */
  ghost predicate At(s: State, log: seq<Record>, nextLSN: nat, disk: map<Key, Image>) {
    s.log == log && s.nextLSN == nextLSN && s.disk == disk
  }

  /** Logs the after-images of the dirty pages, in any order; the log file gets their names cut. */
  method LogPages(fs: Files, xid: nat, writes: map<Key, Image>, ghost s: State)
    returns (ghost us: seq<Record>, ghost states: seq<State>, ghost steps: seq<Step>, ghost events: seq<Event>)
    requires fs.wal.Valid() && xid < fs.wal.nextXID
    requires At(s, fs.wal.Log(), fs.wal.nextLSN, fs.disk) && s.phase == Logging(xid, writes, writes.Keys, |s.log|)
    modifies fs, fs.wal
    ensures fs.wal.Valid() && fs.wal.nextXID == old(fs.wal.nextXID) && fs.wal.nextLSN == old(fs.wal.nextLSN) + |us| && fs.disk == old(fs.disk)
    ensures fs.wal.Log() == old(fs.wal.Log()) + CutAll(us) && LoggedSoFar(us, xid, writes, {})
    ensures fs.events == old(fs.events) + events && Follows(states, steps, events) && states[0] == s
    ensures var t := states[|steps|];
      At(t, fs.wal.Log(), fs.wal.nextLSN, fs.disk) && t.phase == Logging(xid, writes, {}, |s.log|) && t.commits == s.commits
  {
    hide Wal.Valid, LoggedSoFar, Follows;
    ghost var before, past := fs.wal.Log(), fs.events;
    var todo := writes.Keys;
    us, states, steps, events := [], [s], [], [];
    NothingLogged(xid, writes);
    StartFollows(s);
    assert past + [] == past;
    while todo != {}
      invariant fs.wal.Valid() && fs.wal.nextXID == old(fs.wal.nextXID) && todo <= writes.Keys && fs.disk == old(fs.disk)
      invariant fs.wal.Log() == before + CutAll(us) && LoggedSoFar(us, xid, writes, todo) && fs.wal.nextLSN == old(fs.wal.nextLSN) + |us|
      invariant fs.events == past + events && Follows(states, steps, events) && |states| == |steps| + 1 && states[0] == s
      invariant At(states[|steps|], fs.wal.Log(), fs.wal.nextLSN, fs.disk)
      invariant states[|steps|].phase == Logging(xid, writes, todo, |s.log|) && states[|steps|].commits == s.commits
      decreases |todo|
    {
      var k :| k in todo;
      ghost var r := Record(fs.wal.nextLSN, xid, WriteRecord, k, writes[k]);
      ghost var cut := r.(key := Key(Cut(k.file), k.page));
      fs.LogWrite(xid, k, writes[k]);
      LoggedStep(us, r, writes, todo, k);
      CutSnoc(us, r);
      Assoc(before, CutAll(us), [cut]);
      us := us + [r];
      FollowsMore(states, steps, events, LogWrite(k), Appended(cut));
      Assoc(past, events, [Appended(cut)]);
      states, steps, events := states + [Next(states[|steps|], LogWrite(k))], steps + [LogWrite(k)], events + [Appended(cut)];
      todo := todo - {k};
    }
  }

  lemma {:induction false} StartFollows(s: State)
    ensures Follows([s], [], [])
  {
  }

  lemma {:induction false} CutSnoc(us: seq<Record>, r: Record)
    ensures CutAll(us + [r]) == CutAll(us) + [r.(key := Key(Cut(r.key.file), r.key.page))]
  {
  }

  lemma {:induction false} NothingLogged(xid: nat, writes: map<Key, Image>)
    ensures LoggedSoFar([], xid, writes, writes.Keys) && CutAll([]) == []
  {
  }

  lemma {:induction false} LoggedStep(us: seq<Record>, r: Record, writes: map<Key, Image>, todo: set<Key>, k: Key)
    requires LoggedSoFar(us, r.xid, writes, todo)
    requires r.kind == WriteRecord && k in writes && r.key == k && r.image == writes[k]
    ensures LoggedSoFar(us + [r], r.xid, writes, todo - {k})
  {
    assert us[..0] == [] && us[0..] == us && (us + [r])[0..] == us + [r];
    LoggedMore(us, 0, r, writes, todo, k);
  }

  lemma {:induction false} ShortUncut(us: seq<Record>, xid: nat, writes: map<Key, Image>)
    requires LoggedSoFar(us, xid, writes, {}) && ShortNames(writes)
    ensures CutAll(us) == us
  {
    forall i | 0 <= i < |us| ensures CutAll(us)[i] == us[i] {
      assert us[i].key in writes;
    }
  }

  /** commitTx: log every page, log the commit, sync, then flush.  Each thing it does to the files is a step
      of the protocol, in that order.  In the end the transaction is committed in the log and its pages are
      on disk; when the file names fit their field, the log stands for the old pages overlaid by the write
      set too. */
  method CommitTx(fs: Files, xid: nat, writes: map<Key, Image>, ghost s: State)
    returns (ghost us: seq<Record>, ghost states: seq<State>, ghost steps: seq<Step>, ghost events: seq<Event>)
    requires fs.wal.Valid() && xid < fs.wal.nextXID
    requires At(s, fs.wal.Log(), fs.wal.nextLSN, fs.disk) && s.phase == Logging(xid, writes, writes.Keys, |s.log|)
    requires NoWrites(fs.wal.Log(), xid) && xid !in Committed(fs.wal.Log())
    modifies fs, fs.wal
    ensures fs.wal.Valid()
    ensures LoggedSoFar(us, xid, writes, {})
    ensures fs.wal.Log() == old(fs.wal.Log()) + CutAll(us) + [Record(old(fs.wal.nextLSN) + |us|, xid, CommitRecord, NO_KEY, NO_IMAGE)]
    ensures Committed(fs.wal.Log()) == Committed(old(fs.wal.Log())) + {xid}
    ensures ShortNames(writes) ==> Images(fs.wal.Log()) == Images(old(fs.wal.Log())) + writes
    ensures fs.disk == old(fs.disk) + writes
    ensures fs.events == old(fs.events) + events && Follows(states, steps, events) && states[0] == s
    ensures var t := states[|steps|];
      && At(t, fs.wal.Log(), fs.wal.nextLSN, fs.disk) && t.phase == Flushing(xid, writes, {}) && t.synced == |t.log|
      && t.commits == s.commits + [Commit(xid, writes, |t.log|)]
  {
    hide Wal.Valid, LoggedSoFar, Images, Committed, NoWrites, ShortNames, Follows, Enabled, Next, Mirrors, CutAll;
    ghost var before, past := fs.wal.Log(), fs.events;
    us, states, steps, events := LogPages(fs, xid, writes, s);
    Lengths(states, steps, events);
    ghost var log, lsn := fs.wal.Log(), fs.wal.nextLSN;
    ghost var c := Record(lsn, xid, CommitRecord, NO_KEY, NO_IMAGE);
    CommitSteps(states[|steps|], c);
    fs.LogCommit(xid);
    states, steps, events := Extend(states, steps, events, LogCommit, Appended(c), past);
    CommitCommits(before, us, xid, writes, c);
    if ShortNames(writes) {
      ShortUncut(us, xid, writes);
      assert log[..|before|] == before && log[|before|..] == us;
      SuffixCommitsNothing(log, |before|, xid, writes);
      CommitImages(log, |before|, xid, writes, c);
    }
    fs.Sync();
    states, steps, events := Extend(states, steps, events, Sync, Synced, past);
    states, steps, events := FlushPages(fs, xid, writes, states, steps, events, past);
  }

  /** One more step and its event. */
  ghost method Extend(states: seq<State>, steps: seq<Step>, events: seq<Event>, step: Step, e: Event, past: seq<Event>)
    returns (states': seq<State>, steps': seq<Step>, events': seq<Event>)
    requires Follows(states, steps, events) && Enabled(states[|steps|], step) && Mirrors(states[|steps|], e, Next(states[|steps|], step))
    ensures steps' == steps + [step] && |states'| == |steps'| + 1 && states'[0] == states[0]
    ensures states'[|steps'|] == Next(states[|steps|], step)
    ensures Follows(states', steps', events') && past + events + [e] == past + events'
  {
    hide Enabled, Next, Mirrors;
    FollowsMore(states, steps, events, step, e);
    states', steps', events' := states + [Next(states[|steps|], step)], steps + [step], events + [e];
    Assoc(past, events, [e]);
  }

  lemma {:induction false} CommitCommits(before: seq<Record>, us: seq<Record>, xid: nat, writes: map<Key, Image>, c: Record)
    requires LoggedSoFar(us, xid, writes, {}) && c.kind == CommitRecord && c.xid == xid
    ensures Committed(before + CutAll(us) + [c]) == Committed(before) + {xid}
  {
    hide Replay;
    WritesCommitNothing(CutAll(us));
    CommittedConcat(before, CutAll(us));
    CommittedConcat(before + CutAll(us), [c]);
    assert [c][..0] == [] && Committed([c]) == {xid};
  }

  /** Write records alone change neither the committed set nor the pages. */
  lemma {:induction false} SuffixCommitsNothing(log: seq<Record>, start: nat, xid: nat, writes: map<Key, Image>)
    requires start <= |log| && LoggedSoFar(log[start..], xid, writes, {}) && xid !in Committed(log[..start])
    ensures Committed(log) == Committed(log[..start]) && Images(log) == Images(log[..start])
  {
    hide Replay;
    var pre, suf := log[..start], log[start..];
    CutAt(log, start);
    WritesCommitNothing(suf);
    CommittedConcat(pre, suf);
    hide Committed;
    assert Committed(pre) + {} == Committed(pre);
    ReplayConcat(pre, suf, Committed(pre));
    SuffixWhole(suf, xid, writes, Committed(pre));
    NothingAdded(Replay(pre, Committed(pre)));
  }

  lemma {:induction false} WritesCommitNothing(log: seq<Record>)
    requires forall i :: 0 <= i < |log| ==> log[i].kind == WriteRecord
    ensures Committed(log) == {}
  {
    if log != [] {
      WritesCommitNothing(log[..|log| - 1]);
    }
  }

  /** TxPager.Flush: writes the dirty pages out, in any order. */
  method FlushPages(fs: Files, xid: nat, writes: map<Key, Image>, ghost states0: seq<State>, ghost steps0: seq<Step>, ghost events0: seq<Event>,
                    ghost past: seq<Event>)
    returns (ghost states: seq<State>, ghost steps: seq<Step>, ghost events: seq<Event>)
    requires Follows(states0, steps0, events0) && fs.events == past + events0
    requires var t := states0[|steps0|]; t.disk == fs.disk && t.phase == Flushing(xid, writes, writes.Keys)
    modifies fs
    ensures fs.disk == old(fs.disk) + writes
    ensures fs.events == past + events && Follows(states, steps, events) && states[0] == states0[0]
    ensures states[|steps|] == states0[|steps0|].(disk := fs.disk, phase := Flushing(xid, writes, {}))
  {
    hide Follows, Enabled, Next, Mirrors;
    states, steps, events := states0, steps0, events0;
    Lengths(states, steps, events);
    var todo := writes.Keys;
    ghost var start := fs.disk;
    while todo != {}
      invariant todo <= writes.Keys
      invariant fs.disk == start + (writes - todo)
      invariant fs.events == past + events && Follows(states, steps, events) && |states| == |steps| + 1 && states[0] == states0[0]
      invariant states[|steps|] == states0[|steps0|].(disk := fs.disk, phase := Flushing(xid, writes, todo))
      decreases |todo|
    {
      var k :| k in todo;
      fs.WritePage(k, writes[k]);
      OverlayMore(start, writes, todo, k);
      FlushStep(states[|steps|], k);
      states, steps, events := Extend(states, steps, events, FlushPage(k), Wrote(k, writes[k]), past);
      todo := todo - {k};
    }
    assert writes - {} == writes;
  }

  lemma {:induction false} OverlayMore(m: map<Key, Image>, writes: map<Key, Image>, todo: set<Key>, k: Key)
    requires k in todo && k in writes
    ensures (m + (writes - todo))[k := writes[k]] == m + (writes - (todo - {k}))
  {
  }

  lemma {:induction false} FlushStep(s: State, k: Key)
    requires s.phase.Flushing? && k in s.phase.todo && k in s.phase.writes
    ensures Enabled(s, FlushPage(k)) && Mirrors(s, Wrote(k, s.phase.writes[k]), Next(s, FlushPage(k)))
    ensures Next(s, FlushPage(k)) ==
      s.(disk := s.disk[k := s.phase.writes[k]], phase := Flushing(s.phase.xid, s.phase.writes, s.phase.todo - {k}))
  {
  }

  /** The commit record and the sync behind it. */
  lemma {:induction false} CommitSteps(s: State, c: Record)
    requires s.phase.Logging? && s.phase.todo == {} && c == Record(s.nextLSN, s.phase.xid, CommitRecord, NO_KEY, NO_IMAGE)
    ensures Enabled(s, LogCommit) && Mirrors(s, Appended(c), Next(s, LogCommit))
    ensures var t := Next(s, LogCommit);
      && Enabled(t, Sync) && Mirrors(t, Synced, Next(t, Sync))
      && t.log == s.log + [c] && t.nextLSN == s.nextLSN + 1 && t.disk == s.disk
      && Next(t, Sync) == t.(synced := |t.log|, phase := Flushing(s.phase.xid, s.phase.writes, s.phase.writes.Keys))
      && t.commits == s.commits + [Commit(s.phase.xid, s.phase.writes, |t.log|)]
  {
  }

  lemma {:induction false} Lengths(states: seq<State>, steps: seq<Step>, events: seq<Event>)
    requires Follows(states, steps, events)
    ensures |states| == |steps| + 1
  {
  }
}
