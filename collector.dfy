/** The candidate collector (getPoliciesToDelete): walk the paginated policy
    listing and keep the ARN of every policy nobody uses. */
module Collector {
  import opened Iam

  /** The safety predicate: no principal has the policy attached and none
      uses it as a permissions boundary. */
  predicate Eligible(p: Policy): (b: bool)
    ensures b <==> (p.attachmentCount == None || p.attachmentCount == Some(0))
                   && (p.permissionsBoundaryUsageCount == None || p.permissionsBoundaryUsageCount == Some(0))
  {
    ToInt32(p.attachmentCount) == 0 && ToInt32(p.permissionsBoundaryUsageCount) == 0
  }

  /** The ARNs of the eligible policies of `ps`, in order. */
  function EligibleArns(ps: seq<Policy>): seq<string> {
    if ps == [] then []
    else
      var last := ps[|ps| - 1];
      EligibleArns(ps[..|ps| - 1]) + (if Eligible(last) then [ToString(last.arn)] else [])
  }

  /** What the collector accumulates over `pages`: page by page, each page's
      eligible ARNs. */
  function AllEligible(pages: seq<Page>): seq<string> {
    if pages == [] then []
    else AllEligible(pages[..|pages| - 1]) + EligibleArns(pages[|pages| - 1].policies)
  }

  /** Every policy of the listing, in page order and then in-page order. */
  function Flatten(pages: seq<Page>): seq<Policy> {
    if pages == [] then []
    else Flatten(pages[..|pages| - 1]) + pages[|pages| - 1].policies
  }

  /** The collection fails when the fetch of a page it reaches fails. */
  predicate CollectionFails(acct: Account) {
    acct.failingPage.Some? && acct.failingPage.value < |acct.pages|
  }

  /** The number of ListPolicies calls a collection makes. */
  function PagesFetched(acct: Account): nat {
    if CollectionFails(acct) then acct.failingPage.value + 1 else |acct.pages|
  }

  /** The cursor sent with the i-th ListPolicies call: none on the first,
      the previous page's cursor afterwards. */
  function MarkerBefore(pages: seq<Page>, i: nat): Option<string>
    requires i <= |pages|
  {
    if i == 0 then None else pages[i - 1].marker
  }

  /** The first n ListPolicies requests of a collection. */
  function ListingCalls(pages: seq<Page>, n: nat): seq<Request>
    requires n <= |pages|
  {
    seq(n, i requires 0 <= i < n => ListPolicies(MarkerBefore(pages, i)))
  }

  lemma ListingCallsStep(pages: seq<Page>, k: nat)
    requires k < |pages|
    ensures ListingCalls(pages, k + 1) == ListingCalls(pages, k) + [ListPolicies(MarkerBefore(pages, k))]
  {
  }

  /** getPoliciesToDelete: fetch page after page, following the cursor while
      the listing is truncated, and collect the eligible ARNs. A failed page
      fetch aborts the collection and drops what was collected. */
  method GetPoliciesToDelete(acct: Account) returns (result: Result<seq<string>>, calls: seq<Request>)
    requires WellFormedListing(acct.pages)
    ensures |calls| == PagesFetched(acct)
    ensures forall i :: 0 <= i < |calls| ==> calls[i] == ListPolicies(MarkerBefore(acct.pages, i))
    ensures CollectionFails(acct) ==> result == Err(ServiceFailure)
    ensures !CollectionFails(acct) ==> result == Ok(AllEligible(acct.pages))
  {
    var collected: seq<string> := [];
    var marker: Option<string> := None;
    ghost var k: nat := 0;
    calls := [];
    while true
      invariant k < |acct.pages|
      invariant marker == MarkerBefore(acct.pages, k)
      invariant calls == ListingCalls(acct.pages, k)
      invariant collected == AllEligible(acct.pages[..k])
      invariant !(acct.failingPage.Some? && acct.failingPage.value < k)
      decreases |acct.pages| - k
    {
      PageFetch(acct, k);
      var response := AnswerListPolicies(acct, marker);
      calls := calls + [ListPolicies(marker)];
      ListingCallsStep(acct.pages, k);
      if response.Err? {
        assert CollectionFails(acct) && PagesFetched(acct) == k + 1;
        return Err(response.error), calls;
      }
      assert acct.failingPage != Some(k);
      var page := response.value;
      assert page == acct.pages[k];
      collected := AppendEligible(collected, page.policies);
      AllEligibleStep(acct.pages, k);
      if page.isTruncated {
        marker := page.marker;
        k := k + 1;
      } else {
        assert acct.pages[..k + 1] == acct.pages;
        break;
      }
    }
    result := Ok(collected);
  }

  /** The k-th ListPolicies call of a collection fetches page k, unless
      that fetch is the one that fails. */
  lemma PageFetch(acct: Account, k: nat)
    requires WellFormedListing(acct.pages)
    requires k < |acct.pages|
    ensures AnswerListPolicies(acct, MarkerBefore(acct.pages, k)) ==
            if acct.failingPage == Some(k) then Err(ServiceFailure) else Ok(acct.pages[k])
  {
    if k > 0 {
      MarkerLeadsToNextPage(acct.pages, k - 1);
    }
  }

  /** The inner loop of getPoliciesToDelete: append the ARN of each eligible
      policy of one page, in order. */
  method AppendEligible(collected: seq<string>, policies: seq<Policy>) returns (r: seq<string>)
    ensures r == collected + EligibleArns(policies)
  {
    r := collected;
    for j := 0 to |policies|
      invariant r == collected + EligibleArns(policies[..j])
    {
      var policy := policies[j];
      EligibleArnsStep(policies, j);
      if Eligible(policy) {
        r := r + [ToString(policy.arn)];
      }
    }
    assert policies[..|policies|] == policies;
  }

  lemma EligibleArnsStep(ps: seq<Policy>, j: nat)
    requires j < |ps|
    ensures EligibleArns(ps[..j + 1]) ==
            EligibleArns(ps[..j]) + (if Eligible(ps[j]) then [ToString(ps[j].arn)] else [])
  {
    assert ps[..j + 1][..j] == ps[..j];
  }

  lemma AllEligibleStep(pages: seq<Page>, k: nat)
    requires k < |pages|
    ensures AllEligible(pages[..k + 1]) == AllEligible(pages[..k]) + EligibleArns(pages[k].policies)
  {
    assert pages[..k + 1][..k] == pages[..k];
  }

  /** Filtering distributes over concatenation. */
  lemma {:induction false} EligibleArnsAppend(a: seq<Policy>, b: seq<Policy>)
    ensures EligibleArns(a + b) == EligibleArns(a) + EligibleArns(b)
    decreases |b|
  {
    if b != [] {
      var init := b[..|b| - 1];
      assert (a + b)[..|a + b| - 1] == a + init;
      EligibleArnsAppend(a, init);
    } else {
      assert a + b == a;
    }
  }

  /** Order: the collected ARNs are those of the eligible policies in page
      order and, within a page, in listing order. */
  lemma {:induction false} CollectedInListingOrder(pages: seq<Page>)
    ensures AllEligible(pages) == EligibleArns(Flatten(pages))
  {
    if pages != [] {
      var init := pages[..|pages| - 1];
      CollectedInListingOrder(init);
      EligibleArnsAppend(Flatten(init), pages[|pages| - 1].policies);
    }
  }

  /** An ARN is kept exactly when some eligible policy carries it. */
  lemma {:induction false} EligibleArnsMembership(ps: seq<Policy>, x: string)
    ensures x in EligibleArns(ps) <==>
            exists k :: 0 <= k < |ps| && Eligible(ps[k]) && ToString(ps[k].arn) == x
  {
    if ps != [] {
      var init := ps[..|ps| - 1];
      EligibleArnsMembership(init, x);
      if x in EligibleArns(init) {
        var k :| 0 <= k < |init| && Eligible(init[k]) && ToString(init[k].arn) == x;
        assert ps[k] == init[k];
      }
      if exists k :: 0 <= k < |ps| && Eligible(ps[k]) && ToString(ps[k].arn) == x {
        var k :| 0 <= k < |ps| && Eligible(ps[k]) && ToString(ps[k].arn) == x;
        if k < |init| {
          assert init[k] == ps[k];
        }
      }
    }
  }

  /** Soundness and completeness of the collector: an ARN is collected
      exactly when an unattached, boundary-unused policy of some page
      carries it. In particular a policy with a nonzero count is never
      collected unless another, eligible policy shares its ARN. */
  lemma CollectedExactlyTheEligible(pages: seq<Page>, x: string)
    ensures x in AllEligible(pages) <==>
            exists p :: p in Flatten(pages) && Eligible(p) && ToString(p.arn) == x
  {
    CollectedInListingOrder(pages);
    var flat := Flatten(pages);
    EligibleArnsMembership(flat, x);
    if exists p :: p in flat && Eligible(p) && ToString(p.arn) == x {
      var p :| p in flat && Eligible(p) && ToString(p.arn) == x;
      var k :| 0 <= k < |flat| && flat[k] == p;
    }
  }

  predicate Distinct<T(==)>(s: seq<T>) {
    forall i, j :: 0 <= i < j < |s| ==> s[i] != s[j]
  }

  function Arns(ps: seq<Policy>): seq<string> {
    seq(|ps|, k requires 0 <= k < |ps| => ToString(ps[k].arn))
  }

  /** When the listing names every policy once, no ARN is collected twice. */
  lemma {:induction false} EligibleArnsDistinct(ps: seq<Policy>)
    requires Distinct(Arns(ps))
    ensures Distinct(EligibleArns(ps))
  {
    if ps != [] {
      var init := ps[..|ps| - 1];
      var last := ps[|ps| - 1];
      assert Arns(init) == Arns(ps)[..|ps| - 1];
      EligibleArnsDistinct(init);
      if Eligible(last) {
        var x := ToString(last.arn);
        forall k | 0 <= k < |init|
          ensures ToString(init[k].arn) != x
        {
          assert Arns(ps)[k] != Arns(ps)[|ps| - 1];
        }
        EligibleArnsMembership(init, x);
      }
    }
  }

  /** Each eligible policy is collected once: when the listing names every
      policy once, the collected ARNs hold no repetition. */
  lemma CollectedOnce(pages: seq<Page>)
    requires Distinct(Arns(Flatten(pages)))
    ensures Distinct(AllEligible(pages))
    ensures forall p :: p in Flatten(pages) && Eligible(p) ==> ToString(p.arn) in AllEligible(pages)
  {
    forall p | p in Flatten(pages) && Eligible(p)
      ensures ToString(p.arn) in AllEligible(pages)
    {
      CollectedExactlyTheEligible(pages, ToString(p.arn));
    }
    CollectedInListingOrder(pages);
    EligibleArnsDistinct(Flatten(pages));
  }
}
