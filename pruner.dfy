/** The version pruner (deletePolicyVersions): list a policy's versions and
    delete every non-default one, reporting and skipping past the deletes
    that fail. */
module Pruner {
  import opened Iam

  /** The delete requests for the non-default versions of `vs`, in listing
      order. */
  function VersionDeletes(arn: string, vs: seq<PolicyVersion>): seq<Request> {
    if vs == [] then []
    else
      var last := vs[|vs| - 1];
      VersionDeletes(arn, vs[..|vs| - 1])
        + (if !last.isDefaultVersion then [DeletePolicyVersion(arn, ToString(last.versionId))] else [])
  }

  /** The versions whose delete the service refuses, as reported, in order. */
  function FailedVersionIds(acct: Account, arn: string, vs: seq<PolicyVersion>): seq<string> {
    if vs == [] then []
    else
      var last := vs[|vs| - 1];
      var id := ToString(last.versionId);
      FailedVersionIds(acct, arn, vs[..|vs| - 1])
        + (if !last.isDefaultVersion && AnswerDeletePolicyVersion(acct, arn, id).Some? then [id] else [])
  }

  function CountDefaults(vs: seq<PolicyVersion>): nat {
    if vs == [] then 0
    else CountDefaults(vs[..|vs| - 1]) + (if vs[|vs| - 1].isDefaultVersion then 1 else 0)
  }

  /** deletePolicyVersions: one ListPolicyVersions call; if it fails, nothing
      else and the error is returned. Otherwise one DeletePolicyVersion per
      non-default version, in order, whatever becomes of the earlier ones;
      the failures are reported in `failed` and the result is no error. */
  method DeletePolicyVersions(acct: Account, arn: string)
    returns (err: Option<ApiError>, failed: seq<string>, calls: seq<Request>)
    ensures AnswerListPolicyVersions(acct, arn).Err? ==>
              && err == Some(AnswerListPolicyVersions(acct, arn).error)
              && failed == []
              && calls == [ListPolicyVersions(arn)]
    ensures AnswerListPolicyVersions(acct, arn).Ok? ==>
              var vs := AnswerListPolicyVersions(acct, arn).value;
              && err == None
              && failed == FailedVersionIds(acct, arn, vs)
              && calls == [ListPolicyVersions(arn)] + VersionDeletes(arn, vs)
  {
    var response := AnswerListPolicyVersions(acct, arn);
    calls := [ListPolicyVersions(arn)];
    failed := [];
    if response.Err? {
      return Some(response.error), failed, calls;
    }
    var vs := response.value;
    var j := 0;
    while j < |vs|
      invariant j <= |vs|
      invariant calls == [ListPolicyVersions(arn)] + VersionDeletes(arn, vs[..j])
      invariant failed == FailedVersionIds(acct, arn, vs[..j])
    {
      var version := vs[j];
      assert vs[..j + 1][..j] == vs[..j];
      if !version.isDefaultVersion {
        var versionId := ToString(version.versionId);
        calls := calls + [DeletePolicyVersion(arn, versionId)];
        var deleteErr := AnswerDeletePolicyVersion(acct, arn, versionId);
        if deleteErr.Some? {
          failed := failed + [versionId];
        }
      }
      j := j + 1;
    }
    assert vs[..j] == vs;
    err := None;
  }

  /** Only version deletes of this policy, and one exactly for each
      non-default version: a version id is deleted iff a non-default
      version carries it. */
  lemma {:induction false} VersionDeletesExact(arn: string, vs: seq<PolicyVersion>)
    ensures forall c :: c in VersionDeletes(arn, vs) ==> c.DeletePolicyVersion? && c.policyArn == arn
    ensures forall id :: DeletePolicyVersion(arn, id) in VersionDeletes(arn, vs) <==>
              exists k :: 0 <= k < |vs| && !vs[k].isDefaultVersion && ToString(vs[k].versionId) == id
  {
    if vs != [] {
      var init := vs[..|vs| - 1];
      VersionDeletesExact(arn, init);
      forall id ensures DeletePolicyVersion(arn, id) in VersionDeletes(arn, vs) <==>
          exists k :: 0 <= k < |vs| && !vs[k].isDefaultVersion && ToString(vs[k].versionId) == id
      {
        if exists k :: 0 <= k < |init| && !init[k].isDefaultVersion && ToString(init[k].versionId) == id {
          var k :| 0 <= k < |init| && !init[k].isDefaultVersion && ToString(init[k].versionId) == id;
          assert vs[k] == init[k];
        }
        if exists k :: 0 <= k < |vs| && !vs[k].isDefaultVersion && ToString(vs[k].versionId) == id {
          var k :| 0 <= k < |vs| && !vs[k].isDefaultVersion && ToString(vs[k].versionId) == id;
          if k < |init| {
            assert init[k] == vs[k];
          }
        }
      }
    }
  }

  /** With K non-default versions exactly K deletes are issued: deletes and
      default versions together account for every listed version. */
  lemma {:induction false} VersionDeleteCount(arn: string, vs: seq<PolicyVersion>)
    ensures |VersionDeletes(arn, vs)| + CountDefaults(vs) == |vs|
  {
    if vs != [] {
      VersionDeleteCount(arn, vs[..|vs| - 1]);
    }
  }

  /** A policy has exactly one default version, so all but one of its
      versions are deleted. */
  lemma AllButDefaultDeleted(arn: string, vs: seq<PolicyVersion>)
    requires CountDefaults(vs) == 1
    ensures |VersionDeletes(arn, vs)| == |vs| - 1
  {
    VersionDeleteCount(arn, vs);
  }

  predicate DistinctVersionIds(vs: seq<PolicyVersion>) {
    forall i, j :: 0 <= i < j < |vs| ==> ToString(vs[i].versionId) != ToString(vs[j].versionId)
  }

  /** The default version is never deleted. */
  lemma DefaultNeverDeleted(arn: string, vs: seq<PolicyVersion>, k: nat)
    requires DistinctVersionIds(vs)
    requires k < |vs| && vs[k].isDefaultVersion
    ensures DeletePolicyVersion(arn, ToString(vs[k].versionId)) !in VersionDeletes(arn, vs)
  {
    VersionDeletesExact(arn, vs);
    var id := ToString(vs[k].versionId);
    forall k' | 0 <= k' < |vs| && !vs[k'].isDefaultVersion
      ensures ToString(vs[k'].versionId) != id
    {
      if k' < k {
        assert ToString(vs[k'].versionId) != ToString(vs[k].versionId);
      } else {
        assert k' != k;
        assert ToString(vs[k].versionId) != ToString(vs[k'].versionId);
      }
    }
  }

  /** No failure is swallowed and none is invented: a version is reported
      as failed iff its delete was issued and the service refused it. */
  lemma {:induction false} FailuresReportedExactly(acct: Account, arn: string, vs: seq<PolicyVersion>, id: string)
    ensures id in FailedVersionIds(acct, arn, vs) <==>
              DeletePolicyVersion(arn, id) in VersionDeletes(arn, vs)
              && AnswerDeletePolicyVersion(acct, arn, id).Some?
  {
    if vs != [] {
      FailuresReportedExactly(acct, arn, vs[..|vs| - 1], id);
    }
  }
}
