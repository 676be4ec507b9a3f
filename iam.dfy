/** The remote identity service as the cleanup tool sees it: the listing of
    customer-managed policies, each policy's versions, and the calls that can
    fail. The service is finite data; each API operation is a function that
    answers a request from that data, and a run is recorded as the sequence
    of requests it sends. */
module Iam {

  datatype Option<T> = None | Some(value: T)

  /** Go's int32, the width of the SDK's usage-count fields. */
  newtype int32 = x: int | -0x8000_0000 <= x < 0x8000_0000

  /** aws.ToInt32: an absent number reads as zero. */
  function ToInt32(p: Option<int32>): (r: int32)
    ensures p.Some? ==> r == p.value
    ensures r == 0 <==> p == None || p == Some(0)
  {
    if p.Some? then p.value else 0
  }

  /** aws.ToString: an absent string reads as the empty string. */
  function ToString(p: Option<string>): (r: string)
    ensures p.Some? ==> r == p.value
    ensures r == "" <==> p == None || p == Some("")
  {
    if p.Some? then p.value else ""
  }

  /** A customer-managed policy as one entry of a ListPolicies page.
      The SDK gives every field as a pointer, hence the options. */
  datatype Policy = Policy(
    arn: Option<string>,
    attachmentCount: Option<int32>,
    permissionsBoundaryUsageCount: Option<int32>)

  /** One ListPolicies response: its policies, whether more follow, and the
      cursor to ask for the next page with. */
  datatype Page = Page(policies: seq<Policy>, isTruncated: bool, marker: Option<string>)

  datatype PolicyVersion = PolicyVersion(versionId: Option<string>, isDefaultVersion: bool)

  datatype ApiError =
    | ServiceFailure   // network, throttling, authorisation: any failed call
    | InvalidMarker    // a cursor the listing never handed out
    | NoSuchEntity     // the policy is not known to the service
    | DeleteConflict   // the policy still has non-default versions

  datatype Result<T> = Ok(value: T) | Err(error: ApiError)

  /** The four requests the tool sends. */
  datatype Request =
    | ListPolicies(marker: Option<string>)
    | ListPolicyVersions(policyArn: string)
    | DeletePolicyVersion(policyArn: string, versionId: string)
    | DeletePolicy(policyArn: string)

  predicate IsDelete(r: Request) {
    r.DeletePolicyVersion? || r.DeletePolicy?
  }

  /** The state of the account at the start of a run, and which calls fail.
      `pages` is the local-scope policy listing, page by page; `failingPage`
      is the index of the page whose fetch fails, if any. */
  datatype Account = Account(
    pages: seq<Page>,
    failingPage: Option<nat>,
    versions: map<string, seq<PolicyVersion>>,
    versionListFails: set<string>,
    versionDeleteFails: set<(string, string)>,
    policyDeleteFails: set<string>)

  /** A listing the service can actually produce: at least one page, every
      page but the last truncated and carrying a cursor, the last one not
      truncated, and no cursor handed out twice. */
  predicate WellFormedListing(pages: seq<Page>) {
    && |pages| > 0
    && (forall i :: 0 <= i < |pages| - 1 ==> pages[i].isTruncated && pages[i].marker.Some?)
    && !pages[|pages| - 1].isTruncated
    && (forall i, j :: 0 <= i < j < |pages| - 1 ==> pages[i].marker != pages[j].marker)
  }

  /** The first page at or after `from` that handed out cursor `m`. */
  function FindMarker(pages: seq<Page>, m: string, from: nat): (r: Option<nat>)
    ensures r.Some? ==> from <= r.value < |pages| && pages[r.value].marker == Some(m)
    decreases |pages| - from
  {
    if from >= |pages| then None
    else if pages[from].isTruncated && pages[from].marker == Some(m) then Some(from)
    else FindMarker(pages, m, from + 1)
  }

  /** The index of the page a ListPolicies request with this cursor asks for. */
  function PageIndex(pages: seq<Page>, marker: Option<string>): Option<nat> {
    if marker.None? then Some(0)
    else match FindMarker(pages, marker.value, 0)
      case Some(i) => Some(i + 1)
      case None => None
  }

  /** The service's answer to ListPolicies(marker). */
  function AnswerListPolicies(acct: Account, marker: Option<string>): Result<Page> {
    var k := PageIndex(acct.pages, marker);
    if k.None? || k.value >= |acct.pages| then Err(InvalidMarker)
    else if acct.failingPage == Some(k.value) then Err(ServiceFailure)
    else Ok(acct.pages[k.value])
  }

  /** The service's answer to ListPolicyVersions(arn): the whole version list
      of the policy in one response. */
  function AnswerListPolicyVersions(acct: Account, arn: string): Result<seq<PolicyVersion>> {
    if arn in acct.versionListFails then Err(ServiceFailure)
    else if arn !in acct.versions then Err(NoSuchEntity)
    else Ok(acct.versions[arn])
  }

  /** The service's answer to DeletePolicyVersion(arn, id): None on success. */
  function AnswerDeletePolicyVersion(acct: Account, arn: string, id: string): Option<ApiError> {
    if (arn, id) in acct.versionDeleteFails then Some(ServiceFailure) else None
  }

  /** Whether a non-default version of the policy is still there once the
      requests `sent` have been answered: its delete was never sent, or the
      service refuses to delete it. */
  predicate VersionsRemain(acct: Account, arn: string, sent: seq<Request>)
    requires arn in acct.versions
  {
    var vs := acct.versions[arn];
    exists k :: 0 <= k < |vs| && !vs[k].isDefaultVersion
                && (DeletePolicyVersion(arn, ToString(vs[k].versionId)) !in sent
                    || (arn, ToString(vs[k].versionId)) in acct.versionDeleteFails)
  }

  /** The service's answer to DeletePolicy(arn) after the requests `sent`:
      the service refuses while a non-default version remains. */
  function AnswerDeletePolicy(acct: Account, arn: string, sent: seq<Request>): Option<ApiError> {
    if arn in acct.policyDeleteFails then Some(ServiceFailure)
    else if arn !in acct.versions then Some(NoSuchEntity)
    else if VersionsRemain(acct, arn, sent) then Some(DeleteConflict)
    else None
  }

  /** In a well-formed listing, the cursor of page i leads to page i + 1. */
  lemma MarkerLeadsToNextPage(pages: seq<Page>, i: nat)
    requires WellFormedListing(pages)
    requires i < |pages| - 1
    ensures PageIndex(pages, pages[i].marker) == Some(i + 1)
  {
    FindMarkerFirst(pages, pages[i].marker.value, 0, i);
  }

  lemma {:induction false} FindMarkerFirst(pages: seq<Page>, m: string, from: nat, i: nat)
    requires WellFormedListing(pages)
    requires from <= i < |pages| - 1 && pages[i].marker == Some(m)
    ensures FindMarker(pages, m, from) == Some(i)
    decreases i - from
  {
    if from < i {
      assert pages[from].marker != pages[i].marker;
      FindMarkerFirst(pages, m, from + 1, i);
    }
  }
}
