// The poster prefetch bookkeeping of `src/app/prefetch.rs`: which rows are
// queued and in what order when the prefetch starts, and how finished
// downloads move the counters and the rows' poster states. The worker
// threads, the channels and the downloads are not modelled: a start returns
// the work items it would send, and a poll consumes the finished downloads
// waiting in the channel, given as a sequence.

module Prefetch {
  import opened Text
  import opened Types
  import opened Utils
  import opened Sorting
  import opened App

  /** `WorkItem`: row index, cache key, poster URL and cached path. */
  datatype WorkItem = WorkItem(rowIdx: nat, key: string, url: string, cachedPath: Option<string>)

  function DisabledMessage(n: nat): string
  {
    "Stage 4/4 - Prefetch disabled via PEX_DISABLE_PREFETCH (posters will load on demand). " + NatToString(n) + " items queued."
  }

  const EMPTY_MESSAGE: string := "Stage 4/4 - No posters to prefetch (empty dataset)."

  function ProgressMessage(completed: nat, total: nat, failed: nat): string
  {
    "Artwork cache progress: " + NatToString(completed) + "/" + NatToString(total) + " cached (" + NatToString(failed) + " failed)."
  }

  function CachedMessage(title: string): string { "Cached: " + title }

  function FailedMessage(title: string, e: string): string { "Download failed: " + title + " — " + e }

  function ReadyMessage(completed: nat, failed: nat): string
  {
    "Stage 4/4 - Artwork cache ready (" + NatToString(completed) + " posters cached, " + NatToString(failed) + " failed)."
  }

  // ------------------------------------------------------- queue order

  /** A row is a priority row when it airs before `now_bucket + 2`. */
  predicate Soon(row: PosterRow, nowBucket: nat)
  {
    row.airing.Some? && DayBucket(row.airing.value) < nowBucket + 2
  }

  /** The `(prio, i)` pairs, as the priority of each index. */
  function Priorities(rows: seq<PosterRow>, nowBucket: nat): (prio: seq<bool>)
    ensures |prio| == |rows| && forall i :: 0 <= i < |rows| ==> prio[i] == Soon(rows[i], nowBucket)
  {
    if rows == [] then [] else Priorities(rows[..|rows| - 1], nowBucket) + [Soon(rows[|rows| - 1], nowBucket)]
  }

  function Range(n: nat): (r: seq<nat>)
    ensures |r| == n && forall i :: 0 <= i < n ==> r[i] == i
  {
    if n == 0 then [] else Range(n - 1) + [n - 1]
  }

  /** The key `(Reverse(prio), i)`. Priority indices come first; as an
      index is below `|prio|`, the number below orders exactly like that
      pair. */
  function QueueKey(prio: seq<bool>): nat -> SortVal
  {
    (i: nat) => SortVal((if i < |prio| && prio[i] then 0 else |prio|) + i, "", "")
  }

  /** The indices below `n` whose priority is `soon`, ascending. */
  function IndicesWith(prio: seq<bool>, n: nat, soon: bool): (r: seq<nat>)
    requires n <= |prio|
  {
    if n == 0 then []
    else IndicesWith(prio, n - 1, soon) + (if prio[n - 1] == soon then [n - 1] else [])
  }

  lemma {:induction false} IndicesWithShape(prio: seq<bool>, n: nat, soon: bool)
    requires n <= |prio|
    ensures forall k, l :: 0 <= k < l < |IndicesWith(prio, n, soon)| ==>
              IndicesWith(prio, n, soon)[k] < IndicesWith(prio, n, soon)[l]
    ensures forall i: nat :: i in IndicesWith(prio, n, soon) <==> i < n && prio[i] == soon
  {
    if n > 0 {
      IndicesWithShape(prio, n - 1, soon);
      var init := IndicesWith(prio, n - 1, soon);
      assert IndicesWith(prio, n, soon) == init + (if prio[n - 1] == soon then [n - 1] else []);
      forall k | 0 <= k < |init| ensures init[k] < n - 1 {
        assert init[k] in init;
      }
    }
  }

  /** Inserting an element whose key lies between those of `a` and those
      of `b` puts it between them. */
  lemma {:induction false} InsertBetween<T>(x: T, a: seq<T>, b: seq<T>, key: T -> SortVal)
    requires forall k :: 0 <= k < |a| ==> !KeyLt(key(x), key(a[k]))
    requires b != [] ==> KeyLt(key(x), key(b[0]))
    ensures InsertByKey(x, a + b, key) == a + [x] + b
  {
    if a == [] {
      assert a + b == b;
    } else {
      assert (a + b)[0] == a[0];
      assert (a + b)[1..] == a[1..] + b;
      InsertBetween(x, a[1..], b, key);
    }
  }

  /** The order in which `start_prefetch` sends the rows to the workers. */
  function Queue(prio: seq<bool>): (r: seq<nat>)
    ensures |r| == |prio|
  {
    SortByKey(Range(|prio|), QueueKey(prio))
  }

  /** A priority index comes after the earlier priority indices and
      before all others. */
  lemma SoonBetween(prio: seq<bool>, x: nat)
    requires x < |prio| && prio[x]
    ensures forall k :: 0 <= k < |IndicesWith(prio, x, true)| ==>
              !KeyLt(QueueKey(prio)(x), QueueKey(prio)(IndicesWith(prio, x, true)[k]))
    ensures IndicesWith(prio, x, false) != [] ==>
              KeyLt(QueueKey(prio)(x), QueueKey(prio)(IndicesWith(prio, x, false)[0]))
  {
    var t, f := IndicesWith(prio, x, true), IndicesWith(prio, x, false);
    IndicesWithShape(prio, x, true);
    IndicesWithShape(prio, x, false);
    forall k | 0 <= k < |t| ensures !KeyLt(QueueKey(prio)(x), QueueKey(prio)(t[k])) {
      assert t[k] in t;
    }
    if f != [] {
      assert f[0] in f;
    }
  }

  /** Any other index comes after all earlier indices. */
  lemma LateLast(prio: seq<bool>, x: nat)
    requires x < |prio| && !prio[x]
    ensures forall k :: 0 <= k < |IndicesWith(prio, x, true) + IndicesWith(prio, x, false)| ==>
              !KeyLt(QueueKey(prio)(x), QueueKey(prio)((IndicesWith(prio, x, true) + IndicesWith(prio, x, false))[k]))
  {
    var t, f := IndicesWith(prio, x, true), IndicesWith(prio, x, false);
    IndicesWithShape(prio, x, true);
    IndicesWithShape(prio, x, false);
    forall k | 0 <= k < |t + f| ensures !KeyLt(QueueKey(prio)(x), QueueKey(prio)((t + f)[k])) {
      assert (t + f)[k] in t || (t + f)[k] in f;
    }
  }

  /** Inserting the next index keeps the queue split into the priority
      indices, then the others. */
  lemma InsertNext(prio: seq<bool>, x: nat)
    requires x < |prio|
    ensures InsertByKey(x, IndicesWith(prio, x, true) + IndicesWith(prio, x, false), QueueKey(prio)) ==
            IndicesWith(prio, x + 1, true) + IndicesWith(prio, x + 1, false)
  {
    var t, f := IndicesWith(prio, x, true), IndicesWith(prio, x, false);
    if prio[x] {
      SoonBetween(prio, x);
      InsertBetween(x, t, f, QueueKey(prio));
      assert IndicesWith(prio, x + 1, true) == t + [x];
    } else {
      LateLast(prio, x);
      InsertBetween(x, t + f, [], QueueKey(prio));
      assert t + f + [] == t + f;
      assert IndicesWith(prio, x + 1, false) == f + [x];
    }
  }

  /** The first `m` indices sorted: the priority ones, then the others. */
  lemma {:induction false} SortedPrefix(prio: seq<bool>, m: nat)
    requires m <= |prio|
    ensures SortByKey(Range(m), QueueKey(prio)) == IndicesWith(prio, m, true) + IndicesWith(prio, m, false)
  {
    if m == 0 {
      assert Range(m) == [];
    } else {
      var x: nat := m - 1;
      SortedPrefix(prio, x);
      assert Range(m)[..x] == Range(x);
      InsertNext(prio, x);
    }
  }

  /** Every index is queued once: the priority indices first, then the
      others, each part ascending. */
  lemma QueueOrder(prio: seq<bool>)
    ensures Queue(prio) == IndicesWith(prio, |prio|, true) + IndicesWith(prio, |prio|, false)
  {
    SortedPrefix(prio, |prio|);
  }

  /** The queue holds each index below `|prio|` exactly once. */
  lemma QueueCovers(prio: seq<bool>)
    ensures forall k :: 0 <= k < |Queue(prio)| ==> Queue(prio)[k] < |prio|
    ensures forall i :: 0 <= i < |prio| ==> i in Queue(prio)
    ensures NoDup(Queue(prio))
  {
    QueueOrder(prio);
    IndicesWithShape(prio, |prio|, true);
    IndicesWithShape(prio, |prio|, false);
    var soon := IndicesWith(prio, |prio|, true);
    var late := IndicesWith(prio, |prio|, false);
    var q := Queue(prio);
    forall k | 0 <= k < |q| ensures q[k] < |prio| {
      assert q[k] in soon || q[k] in late;
    }
    forall k, l | 0 <= k < l < |q| ensures q[k] != q[l] {
      if l < |soon| {
        assert q[k] == soon[k] && q[l] == soon[l];
      } else if k >= |soon| {
        assert q[k] == late[k - |soon|] && q[l] == late[l - |soon|];
      } else {
        assert q[k] in soon && q[l] in late;
      }
    }
  }

  // ------------------------------------------------------ start_prefetch

  /** The state a queued row gets: cached when it already has a path,
      pending otherwise. */
  function Queued(row: PosterRow): (r: PosterRow)
    ensures r.state == (if row.path.Some? then Cached else Pending)
    ensures r.(state := row.state) == row
  {
    row.(state := if row.path.Some? then Cached else Pending)
  }

  /** The work items sent for the indices of `queue`, in order. */
  function WorkItems(rows: seq<PosterRow>, queue: seq<nat>): (r: seq<WorkItem>)
    requires forall k :: 0 <= k < |queue| ==> queue[k] < |rows|
    ensures |r| == |queue|
  {
    if queue == [] then []
    else
      var i := queue[|queue| - 1];
      WorkItems(rows, queue[..|queue| - 1]) + [WorkItem(i, rows[i].key, rows[i].url, rows[i].path)]
  }

  lemma {:induction false} WorkItemsAt(rows: seq<PosterRow>, queue: seq<nat>, k: nat)
    requires forall k :: 0 <= k < |queue| ==> queue[k] < |rows|
    requires k < |queue|
    ensures WorkItems(rows, queue)[k] == WorkItem(queue[k], rows[queue[k]].key, rows[queue[k]].url, rows[queue[k]].path)
  {
    if k < |queue| - 1 {
      WorkItemsAt(rows, queue[..|queue| - 1], k);
    }
  }

  /** The rows after each index of `queue` has had its state set. */
  function MarkAll(rows: seq<PosterRow>, queue: seq<nat>): (r: seq<PosterRow>)
    requires forall k :: 0 <= k < |queue| ==> queue[k] < |rows|
    ensures |r| == |rows|
  {
    if queue == [] then rows
    else
      var i := queue[|queue| - 1];
      var init := MarkAll(rows, queue[..|queue| - 1]);
      init[i := Queued(init[i])]
  }

  /** A queued row has the state `Queued` gives it, and the others are
      left alone. */
  lemma {:induction false} MarkAllAt(rows: seq<PosterRow>, queue: seq<nat>, i: nat)
    requires forall k :: 0 <= k < |queue| ==> queue[k] < |rows|
    requires i < |rows|
    ensures MarkAll(rows, queue)[i] == if i in queue then Queued(rows[i]) else rows[i]
  {
    if queue != [] {
      var init := queue[..|queue| - 1];
      MarkAllAt(rows, init, i);
      assert queue == init + [queue[|queue| - 1]];
    }
  }

  /** The sending loop: each queued row gets its state and a work item. */
  method SendQueue(rows0: seq<PosterRow>, queue: seq<nat>) returns (rows: seq<PosterRow>, items: seq<WorkItem>)
    requires forall k :: 0 <= k < |queue| ==> queue[k] < |rows0|
    ensures rows == MarkAll(rows0, queue)
    ensures items == WorkItems(rows0, queue)
  {
    rows := rows0;
    items := [];
    var k := 0;
    while k < |queue|
      invariant 0 <= k <= |queue|
      invariant rows == MarkAll(rows0, queue[..k])
      invariant items == WorkItems(rows0, queue[..k])
    {
      var idx := queue[k];
      var row := rows[idx];
      assert queue[..k + 1][..k] == queue[..k];
      MarkAllAt(rows0, queue[..k], idx);
      rows := rows[idx := row.(state := if row.path.Some? then Cached else Pending)];
      items := items + [WorkItem(idx, rows[idx].key, rows[idx].url, rows[idx].path)];
      k := k + 1;
    }
    assert queue[..k] == queue;
  }

  /** The queueing part of `start_prefetch`: every row gets its queued
      state, and the work items follow the queue order. */
  method QueueAll(rows0: seq<PosterRow>, nowBucket: nat) returns (rows: seq<PosterRow>, items: seq<WorkItem>)
    ensures forall k :: 0 <= k < |rows0| ==> Queue(Priorities(rows0, nowBucket))[k] < |rows0|
    ensures rows == MarkAll(rows0, Queue(Priorities(rows0, nowBucket)))
    ensures items == WorkItems(rows0, Queue(Priorities(rows0, nowBucket)))
  {
    var prio := Priorities(rows0, nowBucket);
    var queue := SortByKey(Range(|rows0|), QueueKey(prio));
    QueueCovers(prio);
    rows, items := SendQueue(rows0, queue);
  }

  /** The row index of each work item. */
  function RowIdxs(items: seq<WorkItem>): (r: seq<nat>)
    ensures |r| == |items|
    ensures forall k :: 0 <= k < |items| ==> r[k] == items[k].rowIdx
  {
    if items == [] then [] else RowIdxs(items[..|items| - 1]) + [items[|items| - 1].rowIdx]
  }

  lemma WorkItemsRows(rows: seq<PosterRow>, queue: seq<nat>)
    requires forall k :: 0 <= k < |queue| ==> queue[k] < |rows|
    ensures RowIdxs(WorkItems(rows, queue)) == queue
  {
    forall k | 0 <= k < |queue| ensures RowIdxs(WorkItems(rows, queue))[k] == queue[k] {
      WorkItemsAt(rows, queue, k);
    }
  }

  /** Queueing marks every row and sends one work item per row: the rows
      airing before the day after tomorrow first, then the others, each
      group in row order. */
  lemma QueueAllEffect(rows: seq<PosterRow>, nowBucket: nat)
    ensures forall k :: 0 <= k < |rows| ==> Queue(Priorities(rows, nowBucket))[k] < |rows|
    ensures forall i :: 0 <= i < |rows| ==> MarkAll(rows, Queue(Priorities(rows, nowBucket)))[i] == Queued(rows[i])
    ensures RowIdxs(WorkItems(rows, Queue(Priorities(rows, nowBucket)))) ==
            IndicesWith(Priorities(rows, nowBucket), |rows|, true) + IndicesWith(Priorities(rows, nowBucket), |rows|, false)
    ensures forall i :: 0 <= i < |rows| ==> i in RowIdxs(WorkItems(rows, Queue(Priorities(rows, nowBucket))))
    ensures NoDup(RowIdxs(WorkItems(rows, Queue(Priorities(rows, nowBucket)))))
  {
    var prio := Priorities(rows, nowBucket);
    var queue := Queue(prio);
    QueueCovers(prio);
    QueueOrder(prio);
    WorkItemsRows(rows, queue);
    forall i | 0 <= i < |rows| ensures MarkAll(rows, queue)[i] == Queued(rows[i]) {
      MarkAllAt(rows, queue, i);
    }
  }

  /** The fields `start_prefetch` reads and writes. */
  datatype PrefetchView = PrefetchView(
    rows: seq<PosterRow>, prefetchStarted: bool, totalTargets: nat, completed: nat, failed: nat,
    loadingProgress: real, stage4CompleteMessage: Option<string>, lastItemMsg: string,
    bootPhase: BootPhase, hasDoneRx: bool)

  function ViewOf(app: PexApp): PrefetchView
    reads app
  {
    PrefetchView(app.rows, app.prefetchStarted, app.totalTargets, app.completed, app.failed,
                 app.loadingProgress, app.stage4CompleteMessage, app.lastItemMsg, app.bootPhase, app.hasDoneRx)
  }

  /** What `start_prefetch` does to those fields, and the work items it
      sends. */
  function Started(v: PrefetchView, prefetchDisabled: bool, nowBucket: nat, clientOk: bool): (PrefetchView, seq<WorkItem>)
  {
    if v.prefetchStarted then (v, [])
    else if prefetchDisabled || v.rows == [] then
      var message := if prefetchDisabled then DisabledMessage(|v.rows|) else EMPTY_MESSAGE;
      (v.(stage4CompleteMessage := Some(message), lastItemMsg := message, totalTargets := 0, completed := 0,
          failed := 0, loadingProgress := 1.0, bootPhase := BootReady), [])
    else
      var n := |v.rows|;
      var begun := v.(prefetchStarted := true, completed := 0, failed := 0, totalTargets := n, loadingProgress := 0.0,
                      lastItemMsg := ProgressMessage(0, n, 0), stage4CompleteMessage := None, hasDoneRx := true);
      if !clientOk then (begun.(failed := n, loadingProgress := 1.0, bootPhase := BootReady), [])
      else
        var prio := Priorities(v.rows, nowBucket);
        QueueCovers(prio);
        (begun.(rows := MarkAll(v.rows, Queue(prio))), WorkItems(v.rows, Queue(prio)))
  }

  /** A second start does nothing. With prefetch disabled or no rows
      it reports why, clears the counters and marks the boot ready without
      setting `prefetch_started`. Otherwise it counts every row as a
      target; when the HTTP client cannot be built every target counts as
      failed, and else every row is queued once, in `Queue` order. */
  lemma StartedEffect(v: PrefetchView, prefetchDisabled: bool, nowBucket: nat, clientOk: bool)
    ensures v.prefetchStarted ==> Started(v, prefetchDisabled, nowBucket, clientOk) == (v, [])
    ensures var (w, items) := Started(v, prefetchDisabled, nowBucket, clientOk);
            !v.prefetchStarted && (prefetchDisabled || v.rows == []) ==>
              items == [] && !w.prefetchStarted &&
              w.stage4CompleteMessage == Some(if prefetchDisabled then DisabledMessage(|v.rows|) else EMPTY_MESSAGE) &&
              w.totalTargets == 0 && w.completed == 0 && w.failed == 0 && w.bootPhase == BootReady
    ensures var (w, items) := Started(v, prefetchDisabled, nowBucket, clientOk);
            !v.prefetchStarted && !prefetchDisabled && v.rows != [] ==>
              w.prefetchStarted && w.totalTargets == |v.rows| && w.completed == 0 &&
              w.stage4CompleteMessage.None? && w.hasDoneRx
    ensures var (w, items) := Started(v, prefetchDisabled, nowBucket, clientOk);
            !v.prefetchStarted && !prefetchDisabled && v.rows != [] && !clientOk ==>
              w.failed == |v.rows| && w.rows == v.rows && items == [] && w.bootPhase == BootReady
  {
  }

  /** Once the client is built, every row is marked and sent exactly once:
      the rows airing before the day after tomorrow first, then the
      others, each group in row order. */
  lemma StartedQueues(v: PrefetchView, nowBucket: nat)
    requires !v.prefetchStarted && v.rows != []
    ensures var (w, items) := Started(v, false, nowBucket, true);
            var prio := Priorities(v.rows, nowBucket);
            w.failed == 0 && |w.rows| == |v.rows| &&
            (forall i :: 0 <= i < |v.rows| ==> w.rows[i] == Queued(v.rows[i])) &&
            RowIdxs(items) == IndicesWith(prio, |v.rows|, true) + IndicesWith(prio, |v.rows|, false) &&
            (forall i :: 0 <= i < |v.rows| ==> i in RowIdxs(items)) && NoDup(RowIdxs(items))
  {
    QueueAllEffect(v.rows, nowBucket);
  }

  /** `start_prefetch`, given whether PEX_DISABLE_PREFETCH is set, today's
      day bucket and whether the HTTP client could be built; it returns the
      work items it sends. */
  method StartPrefetch(app: PexApp, prefetchDisabled: bool, nowBucket: nat, clientOk: bool) returns (items: seq<WorkItem>)
    modifies app`rows, app`prefetchStarted, app`totalTargets, app`completed, app`failed, app`loadingProgress, app`stage4CompleteMessage, app`lastItemMsg, app`bootPhase, app`hasDoneRx
    ensures (ViewOf(app), items) == Started(old(ViewOf(app)), prefetchDisabled, nowBucket, clientOk)
  {
    items := [];
    if app.prefetchStarted {
      return;
    }
    if prefetchDisabled || app.rows == [] {
      SkipPrefetch(app, if prefetchDisabled then DisabledMessage(|app.rows|) else EMPTY_MESSAGE);
      return;
    }
    BeginPrefetch(app);
    if !clientOk {
      app.failed := app.totalTargets;
      app.loadingProgress := 1.0;
      app.bootPhase := BootReady;
      return;
    }
    var rows;
    rows, items := QueueAll(app.rows, nowBucket);
    app.rows := rows;
  }

  /** The branch of `start_prefetch` that queues nothing. */
  method SkipPrefetch(app: PexApp, message: string)
    modifies app`stage4CompleteMessage, app`lastItemMsg, app`totalTargets, app`completed, app`failed, app`loadingProgress, app`bootPhase
    ensures app.stage4CompleteMessage == Some(message) && app.lastItemMsg == message
    ensures app.totalTargets == 0 && app.completed == 0 && app.failed == 0
    ensures app.loadingProgress == 1.0 && app.bootPhase == BootReady
    ensures app.prefetchStarted == old(app.prefetchStarted) && app.rows == old(app.rows) && app.hasDoneRx == old(app.hasDoneRx)
  {
    app.stage4CompleteMessage := Some(message);
    app.lastItemMsg := message;
    app.totalTargets := 0;
    app.completed := 0;
    app.failed := 0;
    app.loadingProgress := 1.0;
    app.bootPhase := BootReady;
  }

  /** The counters and messages `start_prefetch` resets before queueing. */
  method BeginPrefetch(app: PexApp)
    requires app.rows != []
    modifies app`prefetchStarted, app`completed, app`failed, app`totalTargets, app`loadingProgress, app`lastItemMsg, app`stage4CompleteMessage, app`hasDoneRx
    ensures app.prefetchStarted && app.completed == 0 && app.failed == 0 && app.totalTargets == |app.rows|
    ensures app.loadingProgress == 0.0 && app.lastItemMsg == ProgressMessage(0, |app.rows|, 0)
    ensures app.stage4CompleteMessage.None? && app.hasDoneRx
    ensures app.rows == old(app.rows) && app.bootPhase == old(app.bootPhase)
  {
    app.prefetchStarted := true;
    app.completed := 0;
    app.failed := 0;
    app.totalTargets := |app.rows|;
    app.loadingProgress := if app.totalTargets == 0 then 1.0 else 0.0;
    app.lastItemMsg := if app.totalTargets > 0 then ProgressMessage(0, app.totalTargets, 0) else "";
    app.stage4CompleteMessage := None;
    app.hasDoneRx := true;
  }

  // -------------------------------------------------- poll_prefetch_done

  /** The part of the application state that finished downloads change. */
  datatype Tally = Tally(rows: seq<PosterRow>, completed: nat, failed: nat, lastItemMsg: string)

  /** One finished download: its row gets the path and the cached state, or
      the failed state; a row index out of range counts as a failure. */
  function ApplyDone(t: Tally, m: PrefetchDone): (r: Tally)
    ensures r.completed + r.failed == t.completed + t.failed + 1
    ensures r.completed == t.completed + (if m.result.Ok? && m.rowIdx < |t.rows| then 1 else 0)
    ensures |r.rows| == |t.rows|
    ensures forall i :: 0 <= i < |t.rows| && i != m.rowIdx ==> r.rows[i] == t.rows[i]
  {
    if m.rowIdx < |t.rows| then
      var row := t.rows[m.rowIdx];
      match m.result
      case Ok(path) =>
        Tally(t.rows[m.rowIdx := row.(path := Some(path), state := Cached)], t.completed + 1, t.failed, CachedMessage(row.title))
      case Err(e) =>
        Tally(t.rows[m.rowIdx := row.(state := Failed)], t.completed, t.failed + 1, FailedMessage(row.title, e))
    else
      Tally(t.rows, t.completed, t.failed + 1, t.lastItemMsg)
  }

  /** A row a download finished for is cached with its path, or failed. */
  lemma ApplyDoneRow(t: Tally, m: PrefetchDone)
    requires m.rowIdx < |t.rows|
    ensures var row := ApplyDone(t, m).rows[m.rowIdx];
            if m.result.Ok? then row.state == Cached && row.path == Some(m.result.value)
            else row.state == Failed && row.path == t.rows[m.rowIdx].path
    ensures ApplyDone(t, m).rows[m.rowIdx].title == t.rows[m.rowIdx].title
  {
  }

  function ApplyAll(t: Tally, msgs: seq<PrefetchDone>): (r: Tally)
    ensures |r.rows| == |t.rows|
  {
    if msgs == [] then t else ApplyDone(ApplyAll(t, msgs[..|msgs| - 1]), msgs[|msgs| - 1])
  }

  /** The messages that finish a download for a row that exists. */
  function OkCount(msgs: seq<PrefetchDone>, n: nat): nat
  {
    if msgs == [] then 0
    else
      var m := msgs[|msgs| - 1];
      OkCount(msgs[..|msgs| - 1], n) + (if m.result.Ok? && m.rowIdx < n then 1 else 0)
  }

  /** Each message counts exactly once, as completed when it carries a path
      for an existing row and as failed otherwise. */
  lemma {:induction false} ApplyAllCounts(t: Tally, msgs: seq<PrefetchDone>)
    ensures ApplyAll(t, msgs).completed == t.completed + OkCount(msgs, |t.rows|)
    ensures ApplyAll(t, msgs).failed == t.failed + |msgs| - OkCount(msgs, |t.rows|)
  {
    if msgs != [] {
      ApplyAllCounts(t, msgs[..|msgs| - 1]);
    }
  }

  /** A row no message names is left alone. */
  lemma {:induction false} ApplyAllUntouched(t: Tally, msgs: seq<PrefetchDone>, i: nat)
    requires i < |t.rows|
    requires forall k :: 0 <= k < |msgs| ==> msgs[k].rowIdx != i
    ensures ApplyAll(t, msgs).rows[i] == t.rows[i]
  {
    if msgs != [] {
      ApplyAllUntouched(t, msgs[..|msgs| - 1], i);
    }
  }

  /** The drain loop: at most MAX_DONE_PER_FRAME messages, none without a
      receiver, and it stops when the channel is empty. */
  method DrainDone(t0: Tally, hasDoneRx: bool, msgs: seq<PrefetchDone>) returns (t: Tally, drained: nat)
    ensures drained == if !hasDoneRx then 0 else Min(MAX_DONE_PER_FRAME, |msgs|)
    ensures t == ApplyAll(t0, msgs[..drained])
  {
    t := t0;
    drained := 0;
    while drained < MAX_DONE_PER_FRAME
      invariant drained <= MAX_DONE_PER_FRAME && drained <= |msgs|
      invariant !hasDoneRx ==> drained == 0
      invariant t == ApplyAll(t0, msgs[..drained])
      decreases MAX_DONE_PER_FRAME - drained
    {
      if !hasDoneRx {
        break;
      }
      if drained >= |msgs| {
        break;
      }
      var msg := msgs[drained];
      drained := drained + 1;
      assert msgs[..drained][..drained - 1] == msgs[..drained - 1];
      if msg.rowIdx < |t.rows| {
        var row := t.rows[msg.rowIdx];
        match msg.result {
          case Ok(path) =>
            t := t.(rows := t.rows[msg.rowIdx := row.(path := Some(path), state := Cached)],
                    completed := t.completed + 1, lastItemMsg := CachedMessage(row.title));
          case Err(e) =>
            t := t.(rows := t.rows[msg.rowIdx := row.(state := Failed)],
                    failed := t.failed + 1, lastItemMsg := FailedMessage(row.title, e));
        }
      } else {
        t := t.(failed := t.failed + 1);
      }
    }
  }

  /** The end of `poll_prefetch_done`: the new loading progress, the last
      item message and the stage-4 message. With targets, the progress is
      the finished share clamped to 1 and the message reports the counts;
      once every target has finished, the stage-4 message says the cache is
      ready. Without targets the progress is complete and nothing else
      changes. */
  function Finish(t: Tally, total: nat, stage4: Option<string>): (r: (real, string, Option<string>))
    ensures total == 0 ==> r == (1.0, t.lastItemMsg, stage4)
    ensures total > 0 ==> 0.0 <= r.0 <= 1.0
    ensures total > 0 && t.completed + t.failed >= total ==>
              r.1 == ReadyMessage(t.completed, t.failed) && r.2 == Some(ReadyMessage(t.completed, t.failed))
    ensures total > 0 && t.completed + t.failed < total ==>
              r.1 == ProgressMessage(t.completed, total, t.failed) && r.2 == stage4
  {
    if total > 0 then
      var done := t.completed + t.failed;
      var ratio := done as real / total as real;
      var progress := if ratio > 1.0 then 1.0 else ratio;
      if done >= total then
        var message := ReadyMessage(t.completed, t.failed);
        (progress, message, Some(message))
      else (progress, ProgressMessage(t.completed, total, t.failed), stage4)
    else (1.0, t.lastItemMsg, stage4)
  }

  /** `poll_prefetch_done` over the finished downloads waiting in the
      channel; it returns how many it took. */
  method PollPrefetchDone(app: PexApp, msgs: seq<PrefetchDone>) returns (drained: nat)
    modifies app`rows, app`completed, app`failed, app`loadingProgress, app`lastItemMsg, app`stage4CompleteMessage
    ensures drained == if !old(app.hasDoneRx) then 0 else Min(MAX_DONE_PER_FRAME, |msgs|)
    ensures var t := ApplyAll(Tally(old(app.rows), old(app.completed), old(app.failed), old(app.lastItemMsg)), msgs[..drained]);
            var fin := Finish(t, old(app.totalTargets), old(app.stage4CompleteMessage));
            app.rows == t.rows && app.completed == t.completed && app.failed == t.failed &&
            app.loadingProgress == fin.0 && app.lastItemMsg == fin.1 && app.stage4CompleteMessage == fin.2
    ensures app.completed + app.failed == old(app.completed) + old(app.failed) + drained
    ensures app.totalTargets == old(app.totalTargets) && app.hasDoneRx == old(app.hasDoneRx)
    ensures app.prefetchStarted == old(app.prefetchStarted) && app.bootPhase == old(app.bootPhase)
  {
    var t0 := Tally(app.rows, app.completed, app.failed, app.lastItemMsg);
    var t;
    t, drained := DrainDone(t0, app.hasDoneRx, msgs);
    ApplyAllCounts(t0, msgs[..drained]);
    var fin := FinishPoll(t, app.totalTargets, app.stage4CompleteMessage);
    app.rows := t.rows;
    app.completed := t.completed;
    app.failed := t.failed;
    app.loadingProgress, app.lastItemMsg, app.stage4CompleteMessage := fin.0, fin.1, fin.2;
  }

  /** The summary step of `poll_prefetch_done`. */
  method FinishPoll(t: Tally, total: nat, stage4: Option<string>) returns (r: (real, string, Option<string>))
    ensures r == Finish(t, total, stage4)
  {
    var loadingProgress := 1.0;
    var lastItemMsg := t.lastItemMsg;
    var stage4CompleteMessage := stage4;
    if total > 0 {
      var done := t.completed + t.failed;
      var ratio := done as real / total as real;
      loadingProgress := if ratio > 1.0 then 1.0 else ratio;
      lastItemMsg := ProgressMessage(t.completed, total, t.failed);
      if done >= total {
        var message := ReadyMessage(t.completed, t.failed);
        stage4CompleteMessage := Some(message);
        lastItemMsg := message;
      }
    }
    r := (loadingProgress, lastItemMsg, stage4CompleteMessage);
  }
}
