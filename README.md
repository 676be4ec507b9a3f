# rm-iam-policies: a verified model of the cleanup algorithm

`rm-iam-policies` is a command that removes the unused customer-managed
policies of an AWS account. It lists the account's local-scope policies page
by page. It keeps every policy that is neither attached to a principal nor
used as a permissions boundary. It shows the list and asks for confirmation.
Then, for each policy in turn, it deletes the policy's non-default versions
and then the policy itself. A failure on one policy never stops the batch.

This project models that algorithm in Dafny and proves what it does.

- `Iam` (iam.dfy) is the remote identity service as finite data. An
  `Account` holds the policy listing as a sequence of pages, the index of the
  page whose fetch fails, each policy's versions, and the sets of version
  listings, version deletes and policy deletes that the service refuses.
  Each of the four API operations is a function that answers a request from
  that data. A run is recorded as the sequence of `Request`s it sends.
- `Collector` (collector.dfy) is `getPoliciesToDelete`: a loop that follows
  the listing cursor and appends the eligible ARNs.
- `Pruner` (pruner.dfy) is `deletePolicyVersions`: one version listing, then
  one delete per non-default version.
- `Text` (text.dfy) is Go's `strings.TrimSpace` and the `"y"` confirmation.
- `Cleanup` (cleanup.dfy) is `main` from the candidate list on: the
  "nothing to delete" exit, the confirmation gate and the deletion loop.

The imperative parts of the source are methods with loops. They take the
account as a parameter and return the requests they sent, the result, and
the per-policy report that the program writes to its error stream. Their
postconditions tie these to specification functions, and lemmas state the
properties of those functions.

After a failed version listing the loop `continue`s (main.go:69-73), so no
`DeletePolicy` is sent for that policy; see `Cleanup.PolicyDeleteSentIff`.

## Model

| member | source | states |
|---|---|---|
| `Iam.FindMarker` | main.go:108-109 | a cursor resolves only to a page that handed out that very cursor |
| `Iam.ToInt32` | main.go:103 | an absent count reads as zero and a present one as itself, so a count reads as zero iff it is absent or zero |
| `Iam.ToString` | main.go:104 | an absent ARN reads as the empty string and a present one as itself, so the text is empty iff the ARN is absent or empty |
| `Iam.FindMarkerFirst` | main.go:92-97 | in a listing whose cursors are all distinct, the search for page i's cursor finds page i |
| `Iam.MarkerLeadsToNextPage` | main.go:92-97 | sending page i's cursor fetches page i + 1 |
| `Collector.PageFetch` | main.go:92-100 | the k-th ListPolicies call of a collection answers page k, or the service failure when that page's fetch fails |
| `Collector.Eligible` | main.go:103 | a policy is kept iff its attachment count and its boundary-usage count are each absent or zero |
| `Collector.GetPoliciesToDelete` | main.go:87-115 | one ListPolicies call per page reached: the first without a cursor, each later one with the previous page's cursor; exactly N calls for N pages when nothing fails; result is every eligible ARN over all pages; a failed page fetch returns only the error, discarding what was collected, after exactly the calls up to that page |
| `Collector.AppendEligible` | main.go:102-106 | the page's loop leaves the earlier ARNs in place and adds the ARN of each eligible policy of the page, in order |
| `Collector.EligibleArnsAppend` | main.go:102-106 | filtering the policies of two stretches of the listing gives the two filtered results one after the other |
| `Collector.CollectedInListingOrder` | main.go:91-113 | the collected ARNs are the eligible policies of the flattened listing, in page order and then in-page order |
| `Collector.EligibleArnsMembership` | main.go:102-106 | within one page, an ARN is kept iff some policy with zero attachments and zero boundary uses carries it |
| `Collector.CollectedExactlyTheEligible` | main.go:102-106 | across all pages, an ARN is collected iff an eligible policy carries it; attached or boundary-used policies never contribute |
| `Collector.EligibleArnsDistinct` | main.go:102-106 | a page naming each policy once yields no repeated ARN |
| `Collector.CollectedOnce` | main.go:91-113 | when the listing names each policy once, each eligible policy is collected exactly once |
| `Pruner.DeletePolicyVersions` | main.go:117-141 | a failed version listing sends nothing more and returns its error; otherwise one DeletePolicyVersion per non-default version, in listing order, whatever the earlier deletes answered, the refused ones reported, and no error returned |
| `Pruner.VersionDeletesExact` | main.go:127-134 | every delete sent is a version delete of this policy, and a version id is deleted iff a non-default version carries it |
| `Pruner.VersionDeleteCount` | main.go:127-128 | the deletes and the default versions together account for every listed version, so K non-default versions give exactly K deletes |
| `Pruner.AllButDefaultDeleted` | main.go:127-134 | with exactly one default version, all versions but one are deleted |
| `Pruner.DefaultNeverDeleted` | main.go:128 | with distinct version ids, the default version is never deleted |
| `Pruner.FailuresReportedExactly` | main.go:135-137 | a version is reported as failed iff its delete was sent and refused |
| `Text.LeadingSpaces` | main.go:60 | the leading run of whitespace: all of it is whitespace and what follows is not |
| `Text.TrailingSpaces` | main.go:60 | the trailing run of whitespace: all of it is whitespace and what precedes is not |
| `Text.TrimSpace` | main.go:60 | the trimmed line neither starts nor ends with whitespace |
| `Text.IsSpace` | main.go:60 | among ASCII characters exactly space, tab, line feed, vertical tab, form feed and carriage return are whitespace; every whitespace character lies between U+0009 and U+3000 |
| `Text.Confirmed` | main.go:60-62 | a line can only confirm if it contains a "y" |
| `Text.LeadingSpacesUnique` | main.go:60 | a whitespace prefix followed by a non-space is the leading run |
| `Text.TrailingSpacesUnique` | main.go:60 | a whitespace suffix preceded by a non-space is the trailing run |
| `Text.TrimSpacePadded` | main.go:60 | trimming any whitespace padding of an untrimmable text gives the text back |
| `Text.ConfirmedIff` | main.go:58-62 | deletion is confirmed iff the line is exactly one "y" surrounded only by whitespace; "Y", "yes" or an empty line are refused |
| `Cleanup.DeleteAll` | main.go:67-82 | the requests are the per-candidate requests, candidate after candidate, and there is one report per candidate, each fixed by that candidate alone; the policy delete is answered from the requests the loop has actually sent |
| `Cleanup.Run` | main.go:40-84 | a failed collection is fatal; no candidates ends the run without a prompt; a line that is not "y" after trimming declines; in all three cases only ListPolicies calls are sent, no delete; otherwise the listing calls are followed by the whole batch |
| `Cleanup.ItemCallsShape` | main.go:69-78 | every request sent for a candidate concerns that candidate, it begins with one version listing, and the policy delete, when sent, comes last |
| `Cleanup.ItemListsOnce` | main.go:69 | the requests for one candidate list its versions exactly once |
| `Cleanup.BatchVisitsInOrder` | main.go:68 | the candidates are processed in the collected order, each one once |
| `Cleanup.PolicyDeleteSentIff` | main.go:68-82 | DeletePolicy is sent for a policy iff it is a candidate whose version listing succeeds; a failed policy delete never prevents later ones |
| `Cleanup.VersionDeletesPrecedePolicyDelete` | main.go:69-78 | for each candidate, every version delete comes before its policy delete |
| `Cleanup.RunVersionDeletesPrecedePolicyDelete` | main.go:68-82 | when the listing names each policy once, in the batch a run sends every version delete of a policy comes before that policy's delete |
| `Cleanup.BatchIgnoresDeleteFailures` | main.go:79-81 | version-delete and policy-delete failures do not change any request sent afterwards |
| `Cleanup.PrunedPolicyAnswer` | main.go:76-81 | once every version delete of the policy has been sent, DeletePolicy fails only because the policy delete itself fails or because a version delete was refused (DeleteConflict) |
| `Cleanup.EarlierRequestsIgnored` | main.go:68-82 | the answer to a candidate's policy delete is the same whatever the run sent for earlier candidates |
| `Cleanup.UnprunedPolicyRefused` | main.go:69-78 | a policy delete sent while a non-default version's delete was never sent is refused with DeleteConflict |
| `Cleanup.PolicyDeletedIff` | main.go:69-81 | a candidate is removed iff its versions were listed, none of its version deletes was refused, and its own delete was not refused |
| `Cleanup.TwoPolicyScenario` | main.go:68-82 | pol-1 with versions v1 (default), v2 and v3, then pol-2 with only v1 (default): delete v2, delete v3, delete pol-1, delete pol-2, in that order |

## Left out

- Credential and profile loading (main.go:18-37): configuration with no logic to prove. The account is a parameter.
- The AWS SDK client: the four operations are the functions `Iam.Answer*` over the `Account` value. The `context.Context` argument and any SDK retries and timeouts are not modelled.
- The service answers from the account as it was at the start of the run. Deletions are not fed back into later answers. The one exception is `Iam.AnswerDeletePolicy`, which is given the requests sent so far: like the service, it refuses the policy while any non-default version remains, because that version's delete was refused or never sent. For a listing that names no ARN twice, the algorithm lists each policy's versions once, before deleting anything of that policy, so the requests it sends are the same either way.
- A listing that names the same ARN twice makes the batch visit that policy twice. The model answers the second version listing from the start-of-run state, so it repeats the first visit's requests. The real service, once the first visit has deleted the policy, answers that listing with NoSuchEntity, so the run would send only the listing for the second visit.
- `ListPolicyVersions` is answered with the policy's whole version list in one response. The source makes a single call and ignores its truncation flag; the model does not represent a truncated version list.
- Console and error-stream text (the candidate list, the progress lines and the Japanese messages): the per-policy `Cleanup.ItemReport` sequence stands for the error reports. The exit codes are the `Cleanup.Outcome` values, with `FatalError` for status 1 and the others for status 0.
- Reading standard input (main.go:58-59): the line is the `line` parameter of `Cleanup.Run`, and a read error, which the source ignores, is not modelled. Go strings are UTF-8 bytes; here they are sequences of characters.
- Provider-managed policies: the pages stand for the listing with the local scope filter (main.go:93), so only customer-managed policies appear.
- Collector.GetPoliciesToDelete: requires a well-formed listing, meaning every page but the last is truncated and carries a cursor, the last is not truncated, and no cursor is handed out twice. A service that breaks this can make the Go loop run forever. That behaviour is not modelled.
- Cleanup.Run: requires the same well-formed listing, for the same reason.
