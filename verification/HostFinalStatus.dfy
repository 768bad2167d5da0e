/** When the Information operation waits for a final status, and who may declare it completed. */
module HostFinalStatus {
  import opened RawData
  import opened StatusCodes
  import opened ProtocolFile
  import opened FileKinds
  import InitializationFile
  import opened HostOperation
  import opened HostLedger
  import opened HostConservation

  lemma StepWaits(c: Settings, s: State, e: Event)
    ensures Step(c, s, e).waitForFinalStatus
            <==> && !e.Started?
                 && (s.waitForFinalStatus || (c.operationType == Information && StatusSays(c, s, e, ONGOING_CODES)))
  {
    hide StatusIn, Known, Without, WrongTarget, InitializationFile.DecodedResponse, DecodedFile;
  }

  predicate StartsAt(run: seq<Event>, j: nat)
    requires j < |run|
  {
    run[j].Started?
  }

  /** At this place of the run a status file said that the operation goes on, and it was not
      started again since. */
  ghost predicate OngoingSince(c: Settings, run: seq<Event>, k: nat)
    requires k < |run|
  {
    && StatusSays(c, After(c, INITIAL, run[..k]), run[k], ONGOING_CODES)
    && forall j :: k < j < |run| ==> !StartsAt(run, j)
  }

  ghost predicate Ongoing(c: Settings, run: seq<Event>) {
    exists k :: 0 <= k < |run| && OngoingSince(c, run, k)
  }

  lemma PrefixOngoing(c: Settings, run: seq<Event>, k: nat)
    requires k < |run| - 1
    ensures OngoingSince(c, run, k) <==> OngoingSince(c, run[..|run| - 1], k) && !run[|run| - 1].Started?
  {
    hide After, StatusSays;
    var front := run[..|run| - 1];
    assert front[..k] == run[..k];
    assert forall j :: 0 <= j < |front| ==> StartsAt(front, j) == StartsAt(run, j);
    assert StartsAt(run, |run| - 1) == run[|run| - 1].Started?;
  }

  lemma LastOngoing(c: Settings, run: seq<Event>)
    requires run != []
    ensures OngoingSince(c, run, |run| - 1)
            <==> StatusSays(c, After(c, INITIAL, run[..|run| - 1]), run[|run| - 1], ONGOING_CODES)
  {
    hide After, StatusSays;
  }

  /** The Information operation waits for a final status exactly when a callback of the run
      brought a status file that says accepted or in progress, and none started it since. */
  lemma {:induction false} WaitsExactly(c: Settings, run: seq<Event>)
    requires c.operationType == Information
    ensures After(c, INITIAL, run).waitForFinalStatus <==> Ongoing(c, run)
  {
    hide Step, StatusSays, OngoingSince;
    if run != [] {
      var front, n := run[..|run| - 1], |run| - 1;
      WaitsExactly(c, front);
      StepWaits(c, After(c, INITIAL, front), run[n]);
      LastOngoing(c, run);
      StatusIsNoStart(c, After(c, INITIAL, front), run[n]);
      forall k | 0 <= k < n
        ensures OngoingSince(c, run, k) <==> OngoingSince(c, front, k) && !run[n].Started?
      {
        PrefixOngoing(c, run, k);
      }
    }
  }

  lemma StatusIsNoStart(c: Settings, s: State, e: Event)
    ensures StatusSays(c, s, e, ONGOING_CODES) ==> !e.Started?
  {
  }

  /** After any run, a callback completes the Information operation exactly when it brings a
      status file that says so, or the list, which has to be decodable, while no status file
      said since the start that the operation goes on. */
  lemma CompletedExactly(c: Settings, run: seq<Event>, e: Event)
    requires c.operationType == Information
    ensures var s := After(c, INITIAL, run);
            EndsWith(Endings(c, s, e), OPERATION_COMPLETED)
            <==> || StatusSays(c, s, e, {OPERATION_COMPLETED})
                 || (e.ListEnded? && e.transferred && DecodedFile(LOAD_CONFIGURATION_LIST, e.raw).Some?
                     && !Ongoing(c, run))
  {
    hide After, Ongoing, StatusIn, Known, DecodedFile, EndsWith, Endings, InitializationFile.DecodedResponse;
    WaitsExactly(c, run);
    EndsWithExactly(c, After(c, INITIAL, run), e, OPERATION_COMPLETED);
  }
}
