/**
 The daily job with other requests running between its three database steps: find the stale
 clients, promote them, log the promotions. The promotion does not look at the status again,
 so the history of a client can break; this is exactly when.
 */
module InterleavedJob {
  import opened Wrappers
  import opened ProspectDue
  import opened ClientHistory
  import opened ClientRuns

  predicate HasStatusChange(entries: seq<Entry>) {
    exists i :: 0 <= i < |entries| && entries[i].StatusChanged?
  }

  /** The states the job passes through: found at `s0`, promoted after `gap1`, logged after `gap2`. */
  datatype JobRun = JobRun(s0: State, found: seq<Found>, gap1: seq<Event>, gap2: seq<Event>) {
    function AtPromote(): State {
      Run(s0, gap1)
    }

    function Promoted(): State {
      Promote(AtPromote(), found)
    }

    function AtLog(): State {
      Run(Promoted(), gap2)
    }

    function Final(): State {
      LogPromotions(AtLog(), found)
    }

    /** Every found client still exists when the job writes its log, so the insert goes through. */
    predicate Logs() {
      forall i :: 0 <= i < |found| ==> found[i].id in AtLog().clients
    }

    ghost predicate Legal(cutoff: int) {
      && s0.Valid() && FindsStale(s0, cutoff, found)
      && HonestRun(s0, gap1) && HonestRun(Promoted(), gap2)
    }
  }

  lemma PromoteKeepsValid(s: State, found: seq<Found>)
    requires s.Valid()
    ensures Promote(s, found).Valid()
    ensures Promote(s, found).clients.Keys == s.clients.Keys
  {
  }

  /** A chain that changes the status fits only the status it was written from. */
  lemma {:induction false} ReplayElsewhere(from_: ClientStatus, other: ClientStatus, entries: seq<Entry>)
    requires ReplayStatus(from_, entries).Some?
    ensures ReplayStatus(other, entries)
         == if !HasStatusChange(entries) then Some(other)
            else if other == from_ then ReplayStatus(from_, entries)
            else None
    ensures !HasStatusChange(entries) ==> ReplayStatus(from_, entries) == Some(from_)
  {
    if entries != [] {
      var n := |entries| - 1;
      var front := entries[..n];
      assert ReplayStatus(from_, front).Some?;
      ReplayElsewhere(from_, other, front);
      assert forall i :: 0 <= i < n ==> front[i] == entries[i];
      assert HasStatusChange(entries) <==> HasStatusChange(front) || entries[n].StatusChanged?;
    }
  }

  lemma PromotedClient(s: State, found: seq<Found>, i: nat)
    requires i < |found| && found[i].id in s.clients
    ensures Promote(s, found).clients[found[i].id] == s.clients[found[i].id].(status := RECONTACT_LATER)
  {
  }

  /**
   What a found client that is still there at the end has gained: the entries of the first gap,
   those of the second, and the job's own entry if the log was written.
   */
  lemma GainedInThreeParts(j: JobRun, cutoff: int, i: nat)
    requires j.Legal(cutoff) && i < |j.found| && j.found[i].id in j.Final().clients
    ensures var id := j.found[i].id;
      && Explained(j.s0, j.AtPromote(), id) && Explained(j.Promoted(), j.AtLog(), id)
      && HistoryOf(j.s0.history, id) <= HistoryOf(j.Final().history, id)
      && Gained(j.s0, j.Final(), id)
         == Gained(j.s0, j.AtPromote(), id) + Gained(j.Promoted(), j.AtLog(), id)
            + if j.Logs() then [StatusChanged(id, j.found[i].userId, FOLLOW_UP_2, RECONTACT_LATER)] else []
  {
    hide Run, Promote, HistoryOf, ReplayStatus, ReplayDate, HonestRun, Promotions;
    var id := j.found[i].id;
    assert j.found[i] in j.found;
    RunKeepsValid(j.s0, j.gap1);
    PromoteKeepsValid(j.AtPromote(), j.found);
    RunKeepsValid(j.Promoted(), j.gap2);
    SamePromoted(j);
    HistoryExplainsRun(j.s0, j.gap1, id);
    HistoryExplainsRun(j.Promoted(), j.gap2, id);
    HistoryOfAppended(j.AtLog().history, Promotions(j.found), id);
    HistoryOfPromotions(j.found, id);
  }

  lemma SamePromoted(j: JobRun)
    ensures j.Promoted().history == j.AtPromote().history && j.Promoted().nextId == j.AtPromote().nextId
  {
  }

  /**
   The history of a found client still explains its status after the job if and only if: it was a
   FOLLOW_UP_2 when promoted and its status did not change again before the log was written. If
   the log fails (a found client was deleted meanwhile): if and only if it had become a
   RECONTACT_LATER by itself before the promotion.
   */
  lemma JobBreaksHistoryExactlyWhen(j: JobRun, cutoff: int, i: nat)
    requires j.Legal(cutoff) && i < |j.found| && j.found[i].id in j.Final().clients
    ensures var id := j.found[i].id;
      && id in j.s0.clients && j.s0.clients[id].status == FOLLOW_UP_2
      && id in j.AtPromote().clients
      && HistoryOf(j.s0.history, id) <= HistoryOf(j.Final().history, id)
      && HistoryOf(j.Promoted().history, id) <= HistoryOf(j.AtLog().history, id)
      && (ReplayStatus(FOLLOW_UP_2, Gained(j.s0, j.Final(), id)) == Some(j.Final().clients[id].status)
          <==>
          if j.Logs()
          then j.AtPromote().clients[id].status == FOLLOW_UP_2 && !HasStatusChange(Gained(j.Promoted(), j.AtLog(), id))
          else j.AtPromote().clients[id].status == RECONTACT_LATER)
  {
    hide Run, Promote, HistoryOf, ReplayStatus, ReplayDate, HonestRun, Promotions, Gained;
    var id := j.found[i].id;
    assert j.found[i] in j.found;
    GainedInThreeParts(j, cutoff, i);
    PromotedClient(j.AtPromote(), j.found, i);
    var first, second := Gained(j.s0, j.AtPromote(), id), Gained(j.Promoted(), j.AtLog(), id);
    var at, end := j.AtPromote().clients[id].status, j.AtLog().clients[id].status;
    ReplayElsewhere(RECONTACT_LATER, at, second);
    ReplayAppended(FOLLOW_UP_2, first, second);
    if j.Logs() {
      var own := StatusChanged(id, j.found[i].userId, FOLLOW_UP_2, RECONTACT_LATER);
      ReplayAppended(FOLLOW_UP_2, first + second, [own]);
      var reached := ReplayStatus(FOLLOW_UP_2, first + second);
      if reached.Some? {
        ReplayOne(reached.value, None, own);
      }
    } else {
      assert first + second + [] == first + second;
    }
  }

  /** The contact date of a found client is explained whatever happens in between. */
  lemma JobKeepsDatesExplained(j: JobRun, cutoff: int, i: nat)
    requires j.Legal(cutoff) && i < |j.found| && j.found[i].id in j.Final().clients
    ensures var id := j.found[i].id;
      && id in j.s0.clients
      && HistoryOf(j.s0.history, id) <= HistoryOf(j.Final().history, id)
      && ReplayDate(j.s0.clients[id].contactedAt, Gained(j.s0, j.Final(), id))
         == Some(j.Final().clients[id].contactedAt)
  {
    hide Run, Promote, HistoryOf, ReplayStatus, ReplayDate, HonestRun, Promotions, Gained;
    var id := j.found[i].id;
    assert j.found[i] in j.found;
    GainedInThreeParts(j, cutoff, i);
    PromotedClient(j.AtPromote(), j.found, i);
    var start := j.s0.clients[id].contactedAt;
    var first, second := Gained(j.s0, j.AtPromote(), id), Gained(j.Promoted(), j.AtLog(), id);
    ReplayDateAppended(start, first, second);
    if j.Logs() {
      var own := StatusChanged(id, j.found[i].userId, FOLLOW_UP_2, RECONTACT_LATER);
      ReplayDateAppended(start, first + second, [own]);
      ReplayOne(RECONTACT_LATER, j.AtLog().clients[id].contactedAt, own);
    } else {
      assert first + second + [] == first + second;
    }
  }

  lemma PromoteElsewhere(s: State, found: seq<Found>, id: int)
    requires id in s.clients && forall i :: 0 <= i < |found| ==> found[i].id != id
    ensures Promote(s, found).clients[id] == s.clients[id]
  {
  }

  /** A client the job did not find keeps its whole history explained. */
  lemma OthersStayExplained(j: JobRun, cutoff: int, id: int)
    requires j.Legal(cutoff) && id in j.s0.clients && id in j.Final().clients
    requires forall i :: 0 <= i < |j.found| ==> j.found[i].id != id
    ensures Explained(j.s0, j.Final(), id)
  {
    hide Run, Promote, HistoryOf, ReplayStatus, ReplayDate, HonestRun, Promotions, Explained, Gained;
    var s1, s2, s3, s4 := j.AtPromote(), j.Promoted(), j.AtLog(), j.Final();
    RunKeepsValid(j.s0, j.gap1);
    PromoteKeepsValid(s1, j.found);
    RunKeepsValid(s2, j.gap2);
    SamePromoted(j);
    HistoryExplainsRun(j.s0, j.gap1, id);
    PromoteElsewhere(s1, j.found, id);
    Unmentioned(s1, s2, id);
    HistoryExplainsRun(s2, j.gap2, id);
    HistoryOfAppended(s3.history, Promotions(j.found), id);
    HistoryOfPromotions(j.found, id);
    assert HistoryOf(s4.history, id) == HistoryOf(s3.history, id);
    Unmentioned(s3, s4, id);
    ExplainedTransitive(j.s0, s1, s2, id);
    ExplainedTransitive(j.s0, s2, s3, id);
    ExplainedTransitive(j.s0, s3, s4, id);
  }

  /**
   One such history: found stale, then moved to TALKING by its user before the promotion. Its two
   entries do not chain: the second does not start where the first ends.
   */
  lemma RaceExample()
    ensures var client := Client(1, "Acme", FOLLOW_UP_2, Some(0), None);
      var s0 := State(map[3 := client], [], 4);
      var edit := EditClient(3, 1, Changes(Absent, Set(TALKING), Absent, Absent));
      var j := JobRun(s0, [Found(3, 1)], [edit], []);
      && j.Legal(1)
      && j.Final().clients[3].status == RECONTACT_LATER
      && j.Final().history ==
           [StatusChanged(3, 1, FOLLOW_UP_2, TALKING), StatusChanged(3, 1, FOLLOW_UP_2, RECONTACT_LATER)]
      && ReplayStatus(FOLLOW_UP_2, HistoryOf(j.Final().history, 3)) == None
  {
    hide HistoryOf, ReplayStatus, ReplayDate;
    var client := Client(1, "Acme", FOLLOW_UP_2, Some(0), None);
    var s0 := State(map[3 := client], [], 4);
    var edit := EditClient(3, 1, Changes(Absent, Set(TALKING), Absent, Absent));
    var j := JobRun(s0, [Found(3, 1)], [edit], []);
    assert [edit][..0] == [] && Run(s0, []) == s0;
    assert Run(s0, [edit]) == Apply(s0, edit);
    assert j.found[0].id == 3;
    assert j.Promoted().clients[3].status == RECONTACT_LATER;
    assert j.AtLog() == j.Promoted();
    assert Promotions(j.found) == [StatusChanged(3, 1, FOLLOW_UP_2, RECONTACT_LATER)];
    RaceDoesNotChain(3);
  }

  lemma RaceDoesNotChain(id: int)
    ensures var history :=
              [StatusChanged(id, 1, FOLLOW_UP_2, TALKING), StatusChanged(id, 1, FOLLOW_UP_2, RECONTACT_LATER)];
      ReplayStatus(FOLLOW_UP_2, HistoryOf(history, id)) == None
  {
    hide HistoryOf, ReplayStatus, ReplayDate;
    var first, second :=
      StatusChanged(id, 1, FOLLOW_UP_2, TALKING), StatusChanged(id, 1, FOLLOW_UP_2, RECONTACT_LATER);
    assert [first, second] == [first] + [second];
    HistoryOfOne(first, id);
    HistoryOfOne(second, id);
    HistoryOfAppended([first], [second], id);
    ReplayOne(FOLLOW_UP_2, None, first);
    ReplayOne(TALKING, None, second);
    ReplayAppended(FOLLOW_UP_2, [first], [second]);
  }
}
