/** The command's main flow: collect the candidates, stop when there are
    none, ask for confirmation, then prune and delete each candidate in
    turn, carrying on past every per-policy failure. */
module Cleanup {
  import opened Iam
  import opened Collector
  import opened Pruner
  import opened Text

  /** What the run reports about one candidate. */
  datatype ItemReport =
    | VersionListingFailed(arn: string, error: ApiError)
    | Processed(arn: string, failedVersions: seq<string>, deleteError: Option<ApiError>)

  /** How the run ends: FatalError exits with status 1, the others with 0. */
  datatype Outcome = FatalError | NothingToDelete | Declined | Completed

  /** The requests sent for one candidate: the version listing, and, when it
      succeeds, the version deletes followed by the policy delete. */
  function ItemCalls(acct: Account, arn: string): seq<Request> {
    match AnswerListPolicyVersions(acct, arn)
    case Err(_) => [ListPolicyVersions(arn)]
    case Ok(vs) => [ListPolicyVersions(arn)] + VersionDeletes(arn, vs) + [DeletePolicy(arn)]
  }

  /** What the run reports for one candidate. The policy delete is answered
      after the candidate's own version listing and version deletes; by
      PrunedPolicyAnswer, the requests sent for earlier candidates do not
      change that answer. */
  function ItemOutcome(acct: Account, arn: string): ItemReport {
    match AnswerListPolicyVersions(acct, arn)
    case Err(e) => VersionListingFailed(arn, e)
    case Ok(vs) =>
      Processed(arn, FailedVersionIds(acct, arn, vs),
                AnswerDeletePolicy(acct, arn, [ListPolicyVersions(arn)] + VersionDeletes(arn, vs)))
  }

  /** The requests sent for the candidates `arns`, one after the other. */
  function BatchCalls(acct: Account, arns: seq<string>): seq<Request> {
    if arns == [] then []
    else BatchCalls(acct, arns[..|arns| - 1]) + ItemCalls(acct, arns[|arns| - 1])
  }

  lemma BatchCallsStep(acct: Account, arns: seq<string>, i: nat)
    requires i < |arns|
    ensures BatchCalls(acct, arns[..i + 1]) == BatchCalls(acct, arns[..i]) + ItemCalls(acct, arns[i])
  {
    assert arns[..i + 1][..i] == arns[..i];
  }

  /** The reports for the candidates `arns`, one per candidate, in order. */
  function BatchReport(acct: Account, arns: seq<string>): seq<ItemReport> {
    seq(|arns|, k requires 0 <= k < |arns| => ItemOutcome(acct, arns[k]))
  }

  lemma BatchReportStep(acct: Account, arns: seq<string>, i: nat)
    requires i < |arns|
    ensures BatchReport(acct, arns[..i + 1]) == BatchReport(acct, arns[..i]) + [ItemOutcome(acct, arns[i])]
  {
  }

  /** The deletion loop of main: for each candidate in order, prune its
      versions; when the version listing failed, report it and skip the
      policy delete; otherwise delete the policy and report the outcome. */
  method DeleteAll(acct: Account, arns: seq<string>) returns (calls: seq<Request>, report: seq<ItemReport>)
    ensures calls == BatchCalls(acct, arns)
    ensures |report| == |arns|
    ensures forall k :: 0 <= k < |arns| ==> report[k] == ItemOutcome(acct, arns[k])
  {
    calls := [];
    report := [];
    for i := 0 to |arns|
      invariant calls == BatchCalls(acct, arns[..i])
      invariant report == BatchReport(acct, arns[..i])
    {
      var policyArn := arns[i];
      BatchCallsStep(acct, arns, i);
      BatchReportStep(acct, arns, i);
      var err, failed, itemCalls := DeletePolicyVersions(acct, policyArn);
      ghost var before := calls;
      calls := calls + itemCalls;
      if err.Some? {
        assert itemCalls == ItemCalls(acct, policyArn);
        report := report + [VersionListingFailed(policyArn, err.value)];
        continue;
      }
      assert itemCalls + [DeletePolicy(policyArn)] == ItemCalls(acct, policyArn);
      var deleteErr := AnswerDeletePolicy(acct, policyArn, calls);
      EarlierRequestsIgnored(acct, policyArn, before);
      calls := calls + [DeletePolicy(policyArn)];
      report := report + [Processed(policyArn, failed, deleteErr)];
    }
    assert arns[..|arns|] == arns;
  }

  /** The whole run, given the account and the line typed at the prompt
      (read only when there is something to delete). */
  method Run(acct: Account, line: string) returns (outcome: Outcome, calls: seq<Request>, report: seq<ItemReport>)
    requires WellFormedListing(acct.pages)
    ensures outcome == FatalError <==> CollectionFails(acct)
    ensures outcome == NothingToDelete <==> !CollectionFails(acct) && AllEligible(acct.pages) == []
    ensures outcome == Declined <==>
              !CollectionFails(acct) && AllEligible(acct.pages) != [] && !Confirmed(line)
    ensures PagesFetched(acct) <= |calls|
    ensures forall i :: 0 <= i < PagesFetched(acct) ==> calls[i] == ListPolicies(MarkerBefore(acct.pages, i))
    ensures calls[PagesFetched(acct)..] ==
              if outcome == Completed then BatchCalls(acct, AllEligible(acct.pages)) else []
    ensures outcome == Completed ==>
              var arns := AllEligible(acct.pages);
              |report| == |arns| && forall k :: 0 <= k < |arns| ==> report[k] == ItemOutcome(acct, arns[k])
    ensures outcome != Completed ==> report == [] && forall c :: c in calls ==> !IsDelete(c)
  {
    var collected;
    collected, calls := GetPoliciesToDelete(acct);
    report := [];
    if collected.Err? {
      return FatalError, calls, report;
    }
    var deleteArns := collected.value;
    if |deleteArns| == 0 {
      return NothingToDelete, calls, report;
    }
    if TrimSpace(line) != "y" {
      return Declined, calls, report;
    }
    var batchCalls;
    batchCalls, report := DeleteAll(acct, deleteArns);
    assert (calls + batchCalls)[|calls|..] == batchCalls;
    calls := calls + batchCalls;
    outcome := Completed;
  }

  /** The ARNs whose versions a trace lists, in order. */
  function VersionListings(calls: seq<Request>): seq<string> {
    if calls == [] then []
    else
      var last := calls[|calls| - 1];
      VersionListings(calls[..|calls| - 1]) + (if last.ListPolicyVersions? then [last.policyArn] else [])
  }

  lemma {:induction false} VersionListingsAppend(a: seq<Request>, b: seq<Request>)
    ensures VersionListings(a + b) == VersionListings(a) + VersionListings(b)
    decreases |b|
  {
    if b == [] {
      assert a + b == a;
    } else {
      assert (a + b)[..|a + b| - 1] == a + b[..|b| - 1];
      VersionListingsAppend(a, b[..|b| - 1]);
    }
  }

  lemma {:induction false} NoVersionListings(calls: seq<Request>)
    requires forall c :: c in calls ==> c.DeletePolicyVersion?
    ensures VersionListings(calls) == []
  {
    if calls != [] {
      assert calls[|calls| - 1] in calls;
      NoVersionListings(calls[..|calls| - 1]);
    }
  }

  /** Every request sent for a candidate is about that candidate, and the
      policy delete, when sent, is the last of them. */
  lemma ItemCallsShape(acct: Account, arn: string)
    ensures forall c :: c in ItemCalls(acct, arn) ==> !c.ListPolicies? && c.policyArn == arn
    ensures |ItemCalls(acct, arn)| > 0 && ItemCalls(acct, arn)[0] == ListPolicyVersions(arn)
    ensures forall k :: 0 <= k < |ItemCalls(acct, arn)| - 1 ==> !ItemCalls(acct, arn)[k].DeletePolicy?
    ensures VersionListings(ItemCalls(acct, arn)) == [arn]
  {
    ItemListsOnce(acct, arn);
    var response := AnswerListPolicyVersions(acct, arn);
    if response.Ok? {
      var deletes := VersionDeletes(arn, response.value);
      VersionDeletesExact(arn, response.value);
      forall k | 0 <= k < |ItemCalls(acct, arn)| - 1
        ensures !ItemCalls(acct, arn)[k].DeletePolicy?
      {
        if k > 0 {
          assert ItemCalls(acct, arn)[k] == deletes[k - 1];
        }
      }
    }
  }

  /** The requests for one candidate list its versions exactly once. */
  lemma ItemListsOnce(acct: Account, arn: string)
    ensures VersionListings(ItemCalls(acct, arn)) == [arn]
  {
    assert VersionListings([ListPolicyVersions(arn)]) == [arn] by {
      assert [ListPolicyVersions(arn)][..0] == [];
    }
    var response := AnswerListPolicyVersions(acct, arn);
    if response.Ok? {
      var deletes := VersionDeletes(arn, response.value);
      VersionDeletesExact(arn, response.value);
      NoVersionListings(deletes);
      VersionListingsAppend([ListPolicyVersions(arn)], deletes);
      VersionListingsAppend([ListPolicyVersions(arn)] + deletes, [DeletePolicy(arn)]);
      assert VersionListings([DeletePolicy(arn)]) == [] by {
        assert [DeletePolicy(arn)][..0] == [];
      }
    }
  }

  /** Candidates are processed in the collected order: the version listings
      of a batch name the candidates one by one, in order. */
  lemma {:induction false} BatchVisitsInOrder(acct: Account, arns: seq<string>)
    ensures VersionListings(BatchCalls(acct, arns)) == arns
  {
    if arns != [] {
      var init := arns[..|arns| - 1];
      var last := arns[|arns| - 1];
      assert VersionListings(BatchCalls(acct, arns)) ==
             VersionListings(BatchCalls(acct, init)) + VersionListings(ItemCalls(acct, last)) by {
        VersionListingsAppend(BatchCalls(acct, init), ItemCalls(acct, last));
      }
      BatchVisitsInOrder(acct, init);
      ItemListsOnce(acct, last);
      assert init + [last] == arns;
    }
  }

  /** A policy delete is sent for a candidate iff its version listing
      succeeds: a failed listing skips the policy, and no failure of an
      earlier candidate keeps a later one from being deleted. */
  lemma {:induction false} PolicyDeleteSentIff(acct: Account, arns: seq<string>, arn: string)
    ensures DeletePolicy(arn) in BatchCalls(acct, arns) <==>
              arn in arns && AnswerListPolicyVersions(acct, arn).Ok?
  {
    if arns != [] {
      var init := arns[..|arns| - 1];
      var last := arns[|arns| - 1];
      PolicyDeleteSentIff(acct, init, arn);
      ItemCallsShape(acct, last);
      assert arns == init + [last];
      var item := ItemCalls(acct, last);
      if AnswerListPolicyVersions(acct, last).Ok? {
        assert item[|item| - 1] == DeletePolicy(last);
      }
      if DeletePolicy(arn) in item {
        var k :| 0 <= k < |item| && item[k] == DeletePolicy(arn);
        assert k == |item| - 1;
      }
    }
  }

  /** For each candidate, all of its version deletes come before its policy
      delete (candidates are collected without repetition). */
  lemma {:induction false} VersionDeletesPrecedePolicyDelete(acct: Account, arns: seq<string>, i: nat, j: nat)
    requires Distinct(arns)
    requires i < |BatchCalls(acct, arns)| && j < |BatchCalls(acct, arns)|
    requires BatchCalls(acct, arns)[i].DeletePolicyVersion?
    requires BatchCalls(acct, arns)[j] == DeletePolicy(BatchCalls(acct, arns)[i].policyArn)
    ensures i < j
  {
    var init := arns[..|arns| - 1];
    var last := arns[|arns| - 1];
    var before := BatchCalls(acct, init);
    var item := ItemCalls(acct, last);
    var calls := BatchCalls(acct, arns);
    var arn := calls[i].policyArn;
    ItemCallsShape(acct, last);
    if j < |before| {
      assert calls[j] == before[j];
      if i < |before| {
        assert calls[i] == before[i];
        VersionDeletesPrecedePolicyDelete(acct, init, i, j);
      } else {
        // calls[i] belongs to the last candidate, which the earlier part
        // of the batch never deletes.
        assert calls[i] == item[i - |before|];
        assert arn == last;
        assert DeletePolicy(last) in before;
        PolicyDeleteSentIff(acct, init, last);
        assert false;
      }
    } else if |before| <= i {
      assert calls[j] == item[j - |before|];
      assert calls[i] == item[i - |before|];
      assert j - |before| == |item| - 1;
    }
  }

  /** For the candidates of a run over a listing that names each policy
      once, every version delete of a policy precedes that policy's delete. */
  lemma RunVersionDeletesPrecedePolicyDelete(acct: Account, i: nat, j: nat)
    requires Distinct(Arns(Flatten(acct.pages)))
    requires i < |BatchCalls(acct, AllEligible(acct.pages))| && j < |BatchCalls(acct, AllEligible(acct.pages))|
    requires BatchCalls(acct, AllEligible(acct.pages))[i].DeletePolicyVersion?
    requires BatchCalls(acct, AllEligible(acct.pages))[j] ==
             DeletePolicy(BatchCalls(acct, AllEligible(acct.pages))[i].policyArn)
    ensures i < j
  {
    CollectedOnce(acct.pages);
    VersionDeletesPrecedePolicyDelete(acct, AllEligible(acct.pages), i, j);
  }

  /** Failed deletes change nothing about what is sent afterwards: two
      accounts that agree on the version listings yield the same batch,
      whatever their version-delete and policy-delete failures. */
  lemma {:induction false} BatchIgnoresDeleteFailures(acct: Account, other: Account, arns: seq<string>)
    requires other.versions == acct.versions && other.versionListFails == acct.versionListFails
    ensures BatchCalls(acct, arns) == BatchCalls(other, arns)
  {
    if arns != [] {
      BatchIgnoresDeleteFailures(acct, other, arns[..|arns| - 1]);
    }
  }

  /** Once every version delete of a policy has been sent, the policy
      delete is refused only because the policy delete itself fails or
      because one of those version deletes was refused. */
  lemma PrunedPolicyAnswer(acct: Account, arn: string, sent: seq<Request>)
    requires AnswerListPolicyVersions(acct, arn).Ok?
    requires forall c :: c in VersionDeletes(arn, acct.versions[arn]) ==> c in sent
    ensures AnswerDeletePolicy(acct, arn, sent) ==
              if arn in acct.policyDeleteFails then Some(ServiceFailure)
              else if FailedVersionIds(acct, arn, acct.versions[arn]) != [] then Some(DeleteConflict)
              else None
  {
    var vs := acct.versions[arn];
    var failed := FailedVersionIds(acct, arn, vs);
    VersionDeletesExact(arn, vs);
    if VersionsRemain(acct, arn, sent) {
      var k :| 0 <= k < |vs| && !vs[k].isDefaultVersion
               && (DeletePolicyVersion(arn, ToString(vs[k].versionId)) !in sent
                   || (arn, ToString(vs[k].versionId)) in acct.versionDeleteFails);
      var id := ToString(vs[k].versionId);
      assert DeletePolicyVersion(arn, id) in VersionDeletes(arn, vs);
      FailuresReportedExactly(acct, arn, vs, id);
      assert id in failed;
    }
    if failed != [] {
      var id := failed[0];
      FailuresReportedExactly(acct, arn, vs, id);
      var k :| 0 <= k < |vs| && !vs[k].isDefaultVersion && ToString(vs[k].versionId) == id;
      assert VersionsRemain(acct, arn, sent);
    }
  }

  /** The policy delete that follows a candidate's pruning gets the same
      answer whatever the run sent before that candidate. */
  lemma EarlierRequestsIgnored(acct: Account, arn: string, before: seq<Request>)
    requires AnswerListPolicyVersions(acct, arn).Ok?
    ensures var own := [ListPolicyVersions(arn)] + VersionDeletes(arn, acct.versions[arn]);
            AnswerDeletePolicy(acct, arn, before + own) == AnswerDeletePolicy(acct, arn, own)
  {
    var own := [ListPolicyVersions(arn)] + VersionDeletes(arn, acct.versions[arn]);
    PrunedPolicyAnswer(acct, arn, before + own);
    PrunedPolicyAnswer(acct, arn, own);
  }

  /** Pruning is what lets the delete through: a policy with a non-default
      version whose delete was never sent is refused with DeleteConflict. */
  lemma UnprunedPolicyRefused(acct: Account, arn: string, sent: seq<Request>, k: nat)
    requires arn in acct.versions && arn !in acct.policyDeleteFails
    requires k < |acct.versions[arn]| && !acct.versions[arn][k].isDefaultVersion
    requires DeletePolicyVersion(arn, ToString(acct.versions[arn][k].versionId)) !in sent
    ensures AnswerDeletePolicy(acct, arn, sent) == Some(DeleteConflict)
  {
    assert VersionsRemain(acct, arn, sent);
  }

  /** A candidate ends up deleted exactly when its versions could be listed,
      every one of its non-default version deletes succeeded and its own
      delete was not refused. */
  lemma PolicyDeletedIff(acct: Account, arn: string)
    ensures ItemOutcome(acct, arn).Processed? && ItemOutcome(acct, arn).deleteError.None? <==>
              && AnswerListPolicyVersions(acct, arn).Ok?
              && arn !in acct.policyDeleteFails
              && FailedVersionIds(acct, arn, AnswerListPolicyVersions(acct, arn).value) == []
  {
    var response := AnswerListPolicyVersions(acct, arn);
    if response.Ok? {
      PrunedPolicyAnswer(acct, arn, [ListPolicyVersions(arn)] + VersionDeletes(arn, response.value));
    }
  }

  /** A two-policy batch: pol-1 with a default v1 and
      two older versions, pol-2 with only its default version. */
  lemma TwoPolicyScenario(acct: Account)
    requires acct.versions == map[
      "pol-1" := [PolicyVersion(Some("v1"), true), PolicyVersion(Some("v2"), false), PolicyVersion(Some("v3"), false)],
      "pol-2" := [PolicyVersion(Some("v1"), true)]]
    requires acct.versionListFails == {}
    ensures BatchCalls(acct, ["pol-1", "pol-2"]) ==
              [ ListPolicyVersions("pol-1"),
                DeletePolicyVersion("pol-1", "v2"), DeletePolicyVersion("pol-1", "v3"),
                DeletePolicy("pol-1"),
                ListPolicyVersions("pol-2"), DeletePolicy("pol-2") ]
  {
    var v1 := acct.versions["pol-1"];
    assert v1[..2][..1] == [v1[0]] && v1[..2] == [v1[0], v1[1]] && v1[..1][..0] == [];
    assert VersionDeletes("pol-1", v1) == [DeletePolicyVersion("pol-1", "v2"), DeletePolicyVersion("pol-1", "v3")];
    var v2 := acct.versions["pol-2"];
    assert v2[..0] == [];
    assert VersionDeletes("pol-2", v2) == [];
    assert ItemCalls(acct, "pol-1") == [ListPolicyVersions("pol-1")]
      + [DeletePolicyVersion("pol-1", "v2"), DeletePolicyVersion("pol-1", "v3")] + [DeletePolicy("pol-1")];
    assert ItemCalls(acct, "pol-2") == [ListPolicyVersions("pol-2")] + [] + [DeletePolicy("pol-2")];
    assert ["pol-1", "pol-2"][..1] == ["pol-1"] && ["pol-1"][..0] == [];
    assert BatchCalls(acct, ["pol-1"]) == ItemCalls(acct, "pol-1");
  }
}
