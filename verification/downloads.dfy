/** Downloading and removing a local model from the settings window
    (src/settings.py:467-523).  The download button, the `downloading`
    flag of the model, the download thread and the files on disk form a
    small state machine; every user press and every step of the thread is
    one event.  Threads run one event at a time here: interleavings inside
    a single event are not modelled. */
module Downloads {
  import opened Wrappers

  /** Which handler the button's "clicked" signal is connected to. */
  datatype Binding = ToDownload | ToRemove

  /** The download thread of the model.  `Died` is a thread whose fetch
      raised: it ends before clearing the flag. */
  datatype Thread = NoThread | Pending | Running | Finished | Killed | Died

  /** `flag` is `self.downloading[model]` (`None` when the key is absent);
      `part` is the partially written `<model>.part` file and `file` the
      finished model file. */
  datatype State = State(binding: Binding, flag: Option<bool>, thread: Thread, part: bool, file: bool)

  /** A button with no download ever started and no model file. */
  const Initial: State := State(ToDownload, None, NoThread, false, false)

  datatype Event =
    | Press          // the user clicks the button
    | ThreadStarts   // the thread records its id, sets the flag and starts fetching
    | ThreadEnds     // the fetch completes, the model file is in place
    | ThreadFails    // the fetch raises (a network error, say) and the thread dies

  predicate Downloading(st: State) {
    st.flag == Some(true)
  }

  /** `download_local_model`: rebinds the button to removal and starts the thread. */
  function PressDownload(st: State): (r: State)
    requires st.binding == ToDownload
    ensures r.binding == ToRemove && r.thread == Pending
    ensures r.flag == st.flag && r.part == st.part && r.file == st.file
  {
    st.(binding := ToRemove, thread := Pending)
  }

  /** `remove_local_model`: a running download is stopped (flag cleared
      first, then `SystemExit` is raised in the thread); then the finished
      model file is deleted.  Deleting a file that is not there raises, the
      error is only logged, and the button stays bound to removal. */
  function PressRemove(st: State): (r: State)
    requires st.binding == ToRemove
    ensures !Downloading(r)
    ensures r.part == st.part
    ensures !r.file
    ensures r.binding == ToDownload <==> st.file
    ensures Downloading(st) && st.thread == Running ==> r.thread == Killed
  {
    var stopped :=
      if Downloading(st) then
        st.(flag := Some(false), thread := if st.thread == Running then Killed else st.thread)
      else st;
    if stopped.file then
      stopped.(file := false, binding := ToDownload,
               flag := if stopped.flag.Some? then Some(false) else stopped.flag)
    else stopped
  }

  /** One event.  An event that cannot happen in the current state (the
      thread starting twice, say) leaves the state unchanged. */
  function Step(st: State, e: Event): State {
    match e
    case Press => if st.binding == ToDownload then PressDownload(st) else PressRemove(st)
    case ThreadStarts =>
      if st.thread == Pending then st.(thread := Running, flag := Some(true), part := true) else st
    case ThreadEnds =>
      if st.thread == Running then st.(thread := Finished, flag := Some(false), part := false, file := true) else st
    case ThreadFails =>
      if st.thread == Running then st.(thread := Died) else st
  }

  function Run(st: State, es: seq<Event>): State
    decreases |es|
  {
    if es == [] then st else Run(Step(st, es[0]), es[1..])
  }

  /** The flag is set while the thread is fetching, and otherwise only
      after a fetch raised; while it is set the button is bound to
      removal, so a press always clears it.  A download button has no model
      file behind it. */
  predicate Consistent(st: State) {
    && (st.thread == Running ==> Downloading(st))
    && (Downloading(st) ==> st.thread == Running || st.thread == Died)
    && (st.thread in {Pending, Running} ==> st.binding == ToRemove && !st.file)
    && (Downloading(st) ==> st.binding == ToRemove && !st.file)
    && (st.binding == ToDownload ==> !st.file)
  }

  /** The stronger reading that holds as long as no fetch has raised: the
      flag is set exactly while the thread is fetching. */
  predicate Exact(st: State) {
    && Consistent(st)
    && (Downloading(st) <==> st.thread == Running)
  }

  lemma StepConsistent(st: State, e: Event)
    requires Consistent(st)
    ensures Consistent(Step(st, e))
    ensures Exact(st) && e != ThreadFails ==> Exact(Step(st, e))
    ensures Exact(st) && e == ThreadFails && st.thread == Running ==>
      Downloading(Step(st, e)) && Step(st, e).thread == Died && !Exact(Step(st, e))
  {
  }

  lemma {:induction false} RunConsistent(st: State, es: seq<Event>)
    requires Consistent(st)
    ensures Consistent(Run(st, es))
    ensures Exact(st) && ThreadFails !in es ==> Exact(Run(st, es))
    decreases |es|
  {
    if es != [] {
      StepConsistent(st, es[0]);
      assert ThreadFails !in es ==> ThreadFails !in es[1..];
      RunConsistent(Step(st, es[0]), es[1..]);
    }
  }

  /** A fetch that raises leaves the flag set with no thread behind it, so
      the progress poller keeps running.  The next press clears the flag,
      but with no model file it cannot delete anything and the button stays
      bound to removal for good. */
  lemma FailedDownloadScenario(n: nat)
    ensures Run(Initial, [Press, ThreadStarts, ThreadFails]) ==
      State(ToRemove, Some(true), Died, true, false)
    ensures Run(Initial, [Press, ThreadStarts, ThreadFails, Press]) ==
      State(ToRemove, Some(false), Died, true, false)
    ensures Run(State(ToRemove, Some(false), Died, true, false), seq(n, i => Press)) ==
      State(ToRemove, Some(false), Died, true, false)
  {
    assert [Press, ThreadStarts, ThreadFails][1..] == [ThreadStarts, ThreadFails];
    assert [ThreadStarts, ThreadFails][1..] == [ThreadFails];
    assert [ThreadFails][1..] == [];
    assert [Press, ThreadStarts, ThreadFails, Press][1..] == [ThreadStarts, ThreadFails, Press];
    assert [ThreadStarts, ThreadFails, Press][1..] == [ThreadFails, Press];
    assert [ThreadFails, Press][1..] == [Press];
    assert [Press][1..] == [];
    PressesAfterCancel(State(ToRemove, Some(false), Died, true, false), n);
  }

  /** Pressing while the flag is set clears it and kills a fetching thread
      (a thread that already died is left alone), but the download left
      only a `.part` file, so deleting the model file fails and the button
      stays bound to removal. */
  lemma CancelKeepsRemoveBinding(st: State)
    requires Downloading(st) && Consistent(st) && !st.file
    ensures Step(st, Press).binding == ToRemove
    ensures Step(st, Press).thread == (if st.thread == Running then Killed else Died)
    ensures !Downloading(Step(st, Press))
    ensures Step(st, Press).part == st.part
  {
  }

  /** Once cancelled, further presses change nothing: the button can never
      start a download again while no model file appears. */
  lemma {:induction false} PressesAfterCancel(st: State, n: nat)
    requires st.binding == ToRemove && !Downloading(st) && !st.file
    ensures Run(st, seq(n, i => Press)) == st
    decreases n
  {
    if n > 0 {
      assert seq(n, i => Press)[0] == Press;
      assert seq(n, i => Press)[1..] == seq(n - 1, i => Press);
      PressesAfterCancel(st, n - 1);
    }
  }

  /** The whole scenario from a fresh button: press, the thread starts,
      press again to cancel; the button is left stuck on removal with a
      stray `.part` file on disk. */
  lemma CancelledDownloadScenario()
    ensures Run(Initial, [Press, ThreadStarts, Press]) ==
      State(ToRemove, Some(false), Killed, true, false)
  {
    assert Run(Initial, [Press, ThreadStarts, Press]) ==
      Run(Step(Initial, Press), [ThreadStarts, Press]);
    assert [ThreadStarts, Press][1..] == [Press];
    assert [Press][1..] == [];
  }

  /** A completed download followed by a press removes the model file and
      makes the button a download button again. */
  lemma CompletedDownloadScenario()
    ensures Run(Initial, [Press, ThreadStarts, ThreadEnds, Press]) ==
      State(ToDownload, Some(false), Finished, false, false)
  {
    assert [Press, ThreadStarts, ThreadEnds, Press][1..] == [ThreadStarts, ThreadEnds, Press];
    assert [ThreadStarts, ThreadEnds, Press][1..] == [ThreadEnds, Press];
    assert [ThreadEnds, Press][1..] == [Press];
    assert [Press][1..] == [];
  }

  // ---------------------------------------------------------------------------
  // The progress poller
  // ---------------------------------------------------------------------------

  /** One round of `update_download_status`: the flag it reads, and the size
      of the `.part` file (`None` when `getsize` raises). */
  datatype Sample = Sample(flag: Option<bool>, partSize: Option<nat>)

  /** The fractions the poller shows, given the samples of successive
      rounds and the expected file size.  It stops at the first round whose
      flag is not true; a failing `getsize` or a zero size is logged and the
      round shows nothing.  Floating-point division becomes exact rational
      division. */
  function Poll(samples: seq<Sample>, filesize: nat): (r: seq<real>)
    ensures |r| <= |samples|
    ensures forall k :: 0 <= k < |r| ==> 0.0 <= r[k]
    decreases |samples|
  {
    if samples == [] || samples[0].flag != Some(true) then []
    else if samples[0].partSize.None? || filesize == 0 then Poll(samples[1..], filesize)
    else [samples[0].partSize.value as real / filesize as real] + Poll(samples[1..], filesize)
  }

  /** The number of leading rounds in which the flag was true. */
  function ActiveRounds(samples: seq<Sample>): (n: nat)
    ensures n <= |samples|
    ensures forall k :: 0 <= k < n ==> samples[k].flag == Some(true)
    ensures n < |samples| ==> samples[n].flag != Some(true)
    decreases |samples|
  {
    if samples == [] || samples[0].flag != Some(true) then 0 else 1 + ActiveRounds(samples[1..])
  }

  /** The poller reads nothing after the flag first goes false: what it
      shows depends only on the rounds while the download was running, and
      it shows at most one fraction per such round. */
  lemma {:induction false} PollOnlyWhileDownloading(samples: seq<Sample>, filesize: nat)
    ensures Poll(samples, filesize) == Poll(samples[..ActiveRounds(samples)], filesize)
    ensures |Poll(samples, filesize)| <= ActiveRounds(samples)
    decreases |samples|
  {
    if samples != [] && samples[0].flag == Some(true) {
      var n := ActiveRounds(samples);
      PollOnlyWhileDownloading(samples[1..], filesize);
      assert samples[..n][1..] == samples[1..][..ActiveRounds(samples[1..])];
    }
  }

  /** Whether an active round shows a fraction: the size was read and the
      expected size is not 0. */
  predicate Shows(s: Sample, filesize: nat) {
    s.partSize.Some? && filesize != 0
  }

  /** The number of rounds among the first `n` that show a fraction: the
      reference count for `Poll`. */
  function ShownBefore(samples: seq<Sample>, filesize: nat, n: nat): nat
    requires n <= |samples|
  {
    if n == 0 then 0 else ShownBefore(samples, filesize, n - 1) + (if Shows(samples[n - 1], filesize) then 1 else 0)
  }

  lemma {:induction false} ShownBeforeTail(samples: seq<Sample>, filesize: nat, n: nat)
    requires n < |samples|
    ensures ShownBefore(samples, filesize, n + 1) ==
      (if Shows(samples[0], filesize) then 1 else 0) + ShownBefore(samples[1..], filesize, n)
  {
    if n > 0 {
      ShownBeforeTail(samples, filesize, n - 1);
      assert samples[1..][n - 1] == samples[n];
    }
  }

  /** The poller shows one fraction per active round whose size it could
      read. */
  lemma {:induction false} PollCount(samples: seq<Sample>, filesize: nat)
    ensures |Poll(samples, filesize)| == ShownBefore(samples, filesize, ActiveRounds(samples))
    decreases |samples|
  {
    if samples != [] && samples[0].flag == Some(true) {
      PollCount(samples[1..], filesize);
      ShownBeforeTail(samples, filesize, ActiveRounds(samples[1..]));
    }
  }

  /** The fraction of such a round is its `.part` size over the expected
      size, shown after those of the earlier rounds. */
  lemma {:induction false} PollAt(samples: seq<Sample>, filesize: nat, j: nat)
    requires j < ActiveRounds(samples) && Shows(samples[j], filesize)
    ensures ShownBefore(samples, filesize, j) < |Poll(samples, filesize)|
    ensures Poll(samples, filesize)[ShownBefore(samples, filesize, j)] ==
      samples[j].partSize.value as real / filesize as real
    decreases |samples|
  {
    if j > 0 {
      var tail := samples[1..];
      assert tail[j - 1] == samples[j];
      PollAt(tail, filesize, j - 1);
      ShownBeforeTail(samples, filesize, j - 1);
    }
  }

  /** The fractions shown are exactly `partSize / filesize` of the active
      rounds with a readable size, in round order. */
  lemma PollInOrder(samples: seq<Sample>, filesize: nat)
    ensures |Poll(samples, filesize)| == ShownBefore(samples, filesize, ActiveRounds(samples))
    ensures forall j :: 0 <= j < ActiveRounds(samples) && Shows(samples[j], filesize) ==>
      && ShownBefore(samples, filesize, j) < |Poll(samples, filesize)|
      && Poll(samples, filesize)[ShownBefore(samples, filesize, j)] == samples[j].partSize.value as real / filesize as real
  {
    PollCount(samples, filesize);
    forall j | 0 <= j < ActiveRounds(samples) && Shows(samples[j], filesize)
      ensures ShownBefore(samples, filesize, j) < |Poll(samples, filesize)|
      ensures Poll(samples, filesize)[ShownBefore(samples, filesize, j)] == samples[j].partSize.value as real / filesize as real
    {
      PollAt(samples, filesize, j);
    }
  }

  /** The `.part` file never shrinks between the rounds that read it. */
  predicate Growing(samples: seq<Sample>) {
    forall i, j :: 0 <= i <= j < |samples| && samples[i].partSize.Some? && samples[j].partSize.Some? ==>
      samples[i].partSize.value <= samples[j].partSize.value
  }

  lemma DivMonotone(a: real, b: real, f: real)
    requires a <= b && f > 0.0
    ensures a / f <= b / f
  {
    assert b / f - a / f == (b - a) / f;
  }

  /** Every fraction shown is at least `lo / filesize` when every size read
      is at least `lo`. */
  lemma {:induction false} PollAtLeast(samples: seq<Sample>, filesize: nat, lo: nat)
    requires filesize != 0
    requires forall i :: 0 <= i < |samples| && samples[i].partSize.Some? ==> lo <= samples[i].partSize.value
    ensures forall k :: 0 <= k < |Poll(samples, filesize)| ==>
      lo as real / filesize as real <= Poll(samples, filesize)[k]
    decreases |samples|
  {
    if samples != [] && samples[0].flag == Some(true) {
      var tail := samples[1..];
      assert forall i :: 0 <= i < |tail| ==> tail[i] == samples[i + 1];
      PollAtLeast(tail, filesize, lo);
      if samples[0].partSize.Some? {
        DivMonotone(lo as real, samples[0].partSize.value as real, filesize as real);
      }
    }
  }

  /** A growing `.part` file gives a progress bar that never moves back. */
  lemma {:induction false} PollNonDecreasing(samples: seq<Sample>, filesize: nat)
    requires Growing(samples)
    ensures forall k1, k2 :: 0 <= k1 <= k2 < |Poll(samples, filesize)| ==>
      Poll(samples, filesize)[k1] <= Poll(samples, filesize)[k2]
    decreases |samples|
  {
    if samples != [] && samples[0].flag == Some(true) {
      var tail := samples[1..];
      assert forall i :: 0 <= i < |tail| ==> tail[i] == samples[i + 1];
      PollNonDecreasing(tail, filesize);
      if Shows(samples[0], filesize) {
        var v := samples[0].partSize.value;
        PollAtLeast(tail, filesize, v);
        var r := Poll(samples, filesize);
        assert r == [v as real / filesize as real] + Poll(tail, filesize);
      }
    }
  }
}
