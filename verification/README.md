# Dapr sidecar: verified models of its hard parts

The Dapr sidecar decides who may call whom, runs calls under retry and timeout policies, streams request and response
bodies between sidecars, keeps ports bound across restarts, and hosts actors as long as a state store is there. This
project models the parts of it in which many steps have to fit together, and proves what they promise: for all inputs,
for all runs, and where threads are involved for all interleavings.

| file | what it models |
|---|---|
| `Text.dfy` | the string operations the code uses |
| `Glob.dfy` | wildcard matching by a table, `pkg/config/acl_trie.go` |
| `RuleList.dfy`, `RuleLaws.dfy` | the flat list of put rules and the walk over it; what the walk answers |
| `RulePaths.dfy` | the same in terms of operations as they are written |
| `RuleOrder.dfy` | when an exact rule answers, and when the order of puts decides |
| `AclTrie.dfy` | the mutable trie, which refines the rule list |
| `Canonical.dfy` | the canonical form of HTTP operations, `pkg/acl/acl.go` |
| `Spiffe.dfy` | the identity of a caller in its SPIFFE ID, `pkg/security/spiffe/spiffe.go` |
| `AclSpec.dfy`, `Acl.dfy` | access decisions by a direct scan of the spec; the compiled list and its decisions |
| `RetryCodes.dfy` | retry patterns and status-code rules, `pkg/resiliency/retry.go` |
| `Runner.dfy` | the policy runner: timeouts, disposer, accumulator, retries, as a state machine |
| `BreakerTable.dfy` | the table of circuit breakers under its read-write lock |
| `HeldListener.dfy` | the internal gRPC listener that survives runtime restarts |
| `ActorHosting.dfy` | convergence of actor hosting with the state store |
| `InvokeStream.dfy` | the chunk protocol of streaming service invocation |
| `InvokeRemote.dfy` | remote invocation: who releases each connection, what each attempt sends |
| `Base64.dfy`, `StateEnvelope.dfy` | encrypted state records |
| `AppHealth.dfy` | app health: failure count and change callbacks |
| `ResponseWriter.dfy` | the response writer with re-entrant before-functions |

Code that updates fields in place is a class here; concurrent code is a state machine whose steps are lock operations,
channel operations and the like, and properties are proved over every run. Most classes refine a value-level
specification: each method's `ensures` says that the object's view moves as the specification's step does.

## What the proofs found

Where a promise does not hold of the code as it stands, the code is kept, a lemma shows a case, and the exact condition
is proved.

- A star can hide an exact rule, because the walk does not go back (`RuleLaws.StarsMakeOrderMatter`,
  `RuleLaws.NoWayBack`). A rule that names the request exactly answers it if and only if at every step its segment is the
  first that answers and no rule ends on the way (`RuleOrder.ExactRuleAnswers`).
- The order of puts can decide. It does not for a request, if and only if all ways of choosing among answering segments
  lead to one answer (`RuleOrder.OrderMatters`, and `AclSpec.DeclaredOrder` for the operations of a policy). Without
  stars it never does (`RuleLaws.StarFreeOrder`).
- "Deny wins" has a gap for empty actions: an empty action is forgotten unless it is the last
  (`AclSpec.EmptyActionIsForgotten`); `AclSpec.MergeAllows` says exactly when a merged entry allows.
- Policies are filed under app id, two bars and namespace. As keys of arbitrary strings these collide: lookups of all
  pairs of strings find the right policy if and only if no two policies of different apps share a key
  (`Acl.KeysFindPolicies`, with the case `Acl.BarHidesPolicy`). No caller loses its policy by that: an id without bars finds
  its own policy whatever the policies are (`Acl.BarFreeCallerFinds`), and no SPIFFE identity holds a bar
  (`Spiffe.IdentityHasNoBar`), so decisions are those of the spec without any condition
  (`Acl.ApplyAccessControlPolicies`).
- The retry loop and `RetryExcluded` agree on a code if and only if it is a gRPC or HTTP code or gRPC patterns are
  configured (`RetryCodes.LoopAgreesWithExcluded`); they differ on code 17 without them (`RetryCodes.CodeOutsideBoth`).
- Numbers in retry patterns are narrowed to 32 bits before they are checked, so numbers outside the range can be accepted
  (`RetryCodes.NarrowingAccepts`). A number is read as written if and only if it is a valid code, and accepted if and only
  if its low 32 bits are one (`RetryCodes.CompileNumber`, `RetryCodes.CompileNumbers` for ranges).
- A key name that is empty, starts with a bar or contains two bars in a row makes every record written under it
  unreadable, and no other name does (`StateEnvelope.RoundTrip`).
- The comments that values of stores without keys pass unmodified (`pkg/encryption/state.go:46` and `:59`) do not hold of
  the code: reading gives such a value back if and only if it is empty, and writing uses the missing cipher
  (`StateEnvelope.EncryptedStateStores.WithoutKeys`). The callers ask first whether a store has keys.
- A before-function that is registered by another before-function never runs, although it was registered ahead of the
  commit (`ResponseWriter.RegisteredTooLate`); those registered ahead of the first committing call always run.
- Passing probes do not take failures back: only a change to healthy resets the count
  (`AppHealth.PassesDoNotReset`). The check of the threshold flag lets flags beyond 32 bits through that are cut to 0
  or -1 (`AppHealth.ThresholdIsUsable`). At the flag 2^32 every passing probe triggers a change and the app stays unhealthy
  (`AppHealth.FlagCutToZero`); what is proved of every run holds if and only if the flag is not such a one
  (`AppHealth.EveryRunNeedsThreshold`).
- An HTTP request without a verb that matches a rule is decided by the policy's own default action, even when that is
  empty, and not by the fallback to the global action; the two agree if and only if the policy has a default action or the
  global action refuses (`AclSpec.NoVerbAgreesWithFallback`). So a rule that allows an operation can refuse it
  (`AclSpec.AllowedRuleRefuses`, and in general `AclSpec.NoVerbDecision`).
- Without a timeout a hanging operation holds the policy runner (`Runner.WithoutTimeoutItWaits`); with one it cannot
  (`Runner.RunnerIsNeverStuck`).

## Model

| member | source | states |
|---|---|---|
| `Glob.IsMatch` | pkg/config/acl_trie.go:174-200 | the table-filling match returns true exactly when the target arises from the pattern by putting some string, possibly empty, for each star |
| `Glob.RecurrenceIsGlob` | pkg/config/acl_trie.go:186-197 | the recurrence of the table's cells holds exactly when there are fillers for the stars |
| `Glob.LiteralMatch` | pkg/config/acl_trie.go:174-200 | a pattern without a star matches itself and nothing else |
| `RuleList.FirstHeadIsFirstAnsweringHead` | pkg/config/acl_trie.go:82-88 | among the children of a prefix, in the order they were first put, the first that answers a segment is chosen |
| `AclTrie.FindNode` | pkg/config/acl_trie.go:150-162 | finds a node of the given segment if there is one |
| `AclTrie.FindNodeWithWildcard` | pkg/config/acl_trie.go:122-148 | finds the first sibling that answers the segment, or none if none does |
| `AclTrie.Trie.constructor` | pkg/config/acl_trie.go:34-38 | a new trie stands for the empty rule list |
| `AclTrie.Trie.PutOperationAction` | pkg/config/acl_trie.go:90-120 | a put on the linked nodes appends one rule to the list the trie stands for, under the slash-led segments of the operation in order (see `RulePaths.SegmentsInOrder`), and nothing for an operation without a slash |
| `AclTrie.Trie.FindSubNode` | pkg/config/acl_trie.go:82-88 | the child node found is that of the first answering head of the rules below the node's path, with the data the rules give it |
| `AclTrie.Trie.Search` | pkg/config/acl_trie.go:50-80 | after any puts, searching the trie gives what the first-sibling-wins walk without backtracking over the rule list gives; what that is in terms of operations as written is stated by `RulePaths.PutAndSearch` |
| `RuleLaws.HereIsFirstPut` | pkg/config/acl_trie.go:90-120 | the data at a name is that of the first put for it |
| `RuleLaws.RepeatedPut` | pkg/config/acl_trie.go:112-115 | a second put for a name that has data changes no walk |
| `RuleLaws.WalkIsSound` | pkg/config/acl_trie.go:50-80 | every answer belongs to a put rule whose segments glob-match a prefix of the operation's segments, or all of them plus one all-star segment |
| `RuleLaws.StarFreeWalk` | pkg/config/acl_trie.go:50-80 | without stars the answer is that of the shortest put rule that is a prefix of the operation, and there is none exactly when no prefix was put |
| `RuleLaws.StarFreeOrder` | pkg/config/acl_trie.go:50-120 | without stars, two orders of the same puts answer alike |
| `RuleLaws.StarsMakeOrderMatter` | pkg/config/acl_trie.go:122-148 | with stars the order of puts decides, and an exact rule can be missed |
| `RuleLaws.NoWayBack` | pkg/config/acl_trie.go:62-78 | for every such pair of rules, the walk that enters the first sibling does not come back for the second |
| `RulePaths.SegmentsInOrder` | pkg/config/acl_trie.go:53-60 | the segments of an operation that begins with a slash, one after the other, are the operation |
| `RulePaths.UnderIsPrefix` | pkg/config/acl_trie.go:53-71 | the segments of one operation are the first segments of another exactly when the two are equal or the other goes on with a slash |
| `RulePaths.StarFreeAsWritten` | pkg/config/acl_trie.go:50-120 | of any list of star-free rules, as written, the shortest that equals the request or is followed by a slash in it answers, by its first put; there is no answer exactly when there is no such rule |
| `RulePaths.PutAndSearch` | pkg/config/acl_trie.go:50-120 | the same of the trie, from the puts of operations as written to the answer of a search |
| `RulePaths.OneRule` | pkg/config/acl_trie.go:50-148 | a single rule, with stars or without, answers exactly the requests whose segments its own cover |
| `RulePaths.WildcardsAsWritten` | pkg/config/acl_trie.go:62-78 | a rule that ends in "/*" covers what it is under and one segment more, one that ends in "/**" any number more |
| `RuleOrder.ExactRuleAnswers` | pkg/config/acl_trie.go:50-80 | in every rule list, a rule that names the request exactly, and whose answer no other rule gives, answers it if and only if at every step its own segment is the first sibling that answers and no rule ends there, unless in a single-stage wildcard |
| `RuleOrder.SomeOrderAnswers` | pkg/config/acl_trie.go:50-148 | the answers that a choice among answering siblings can lead to are exactly those that some order of the same puts gives |
| `RuleOrder.OrderMatters` | pkg/config/acl_trie.go:50-148 | every order of the same puts answers a request alike if and only if all choices among answering siblings lead to one answer |
| `RuleLaws.SameWalk` | pkg/config/acl_trie.go:50-80 | rule lists that agree on data and children at every path answer every walk alike |
| `RuleLaws.RenameWalk` | pkg/config/acl_trie.go:50-80 | the walk does not look at the data: replacing it commutes with walking |
| `Canonical.CanonicalHttpOperation` | pkg/acl/acl.go:311-334 | the in-place decoding and stripping computes the reading of an operation: decoded, stripped, accepted; what these are is stated by `Canonical.AcceptedIff`, `Canonical.ReadsAsPlain` and `Canonical.ReadKeepsStructure` |
| `Canonical.PiecesDecode` | pkg/acl/acl.go:311-322 | unescaping the pieces between escaped stars is decoding every escape but those of stars |
| `Canonical.DecodeKeepsStars` | pkg/acl/acl.go:311-322 | decoding neither makes nor removes a star |
| `Canonical.ReadKeepsStructure` | pkg/acl/acl.go:311-334 | every reading keeps the number of slashes and of stars; its stripped form has no semicolon and is the decoded one with each segment cut at its first semicolon; in an accepted one no segment is a dot or two dots, and none has become empty |
| `Canonical.EscapeDecodes` | pkg/acl/acl.go:311-322 | every percent-escaping of characters other than slash and star, each written as "%" and the two hexadecimal digits of its byte (section 2.1 of RFC 3986), decodes to the plain operation, of a percent sign too |
| `Canonical.HexValue` | pkg/acl/acl.go:311-322 | a hexadecimal digit stands for its place among the sixteen digits, in either case |
| `Canonical.EscapeSpellsByte` | pkg/acl/acl.go:311-322 | an escape decodes to a byte exactly when its two digits, read to the base 16, are that byte |
| `Canonical.DecodesIffWellEscaped` | pkg/acl/acl.go:311-322 | decoding succeeds exactly when every percent sign is followed by two hexadecimal digits |
| `Canonical.AcceptedIff` | pkg/acl/acl.go:311-334 | an operation is accepted exactly when it is well escaped, escapes no slash, and no decoded segment is a dot or two dots, or begins with a semicolon, or with a dot or two dots and then a semicolon |
| `Canonical.ReadsAsPlain` | pkg/acl/acl.go:311-334 | the decoded form of an escaped operation is the plain one in lower case |
| `Canonical.SpellingsReadAlike` | pkg/acl/acl.go:304-334 | an escaped spelling reads as a plain spelling of any letter case does |
| `AclSpec.SpellingDoesNotDecide` | pkg/acl/acl.go:238-257 | for HTTP apps, escaping characters of an operation without percent signs, or changing its case, never changes the decision |
| `Acl.SpellingDoesNotDecideByKey` | pkg/acl/acl.go:196-257 | the same of the decision that the compiled list makes |
| `AclSpec.MatchIsSound` | pkg/acl/acl.go:264-270 | the name a request is decided by is that of a declared operation whose segments cover the request's |
| `AclSpec.DeclaredOrder` | pkg/acl/acl.go:88-115 | all orders of a policy's declared operations match a request alike if and only if all choices among answering segments lead to one name |
| `AclSpec.NoVerbAgreesWithFallback` | pkg/acl/acl.go:264-293 | for a request without a verb, a matching rule and what holds without one agree if and only if the policy has a default action or the global action refuses |
| `AclSpec.NoVerbDecision` | pkg/acl/acl.go:229-293 | without a default action and with a global action that allows, a request without a verb is let through exactly when no rule matches it |
| `AclSpec.AllowedRuleRefuses` | pkg/acl/acl.go:229-293 | a rule that allows refuses a request without a verb |
| `AclSpec.OtherOperationAllowed` | pkg/acl/acl.go:229-293 | and an operation without a rule is let through |
| `AclSpec.HttpDecision` | pkg/acl/acl.go:229-293 | for HTTP apps and named actions: a request is let through exactly when it is accepted and each of its two forms is, by all actions declared for the matched name and its verb, or else for the name and every verb, or else by the policy's own default action, or else by the global one; the decision is credited to the policy exactly when it has a default action |
| `AclSpec.GrpcDecision` | pkg/acl/acl.go:264-293 | for gRPC apps and named actions: by all actions declared for the matched name, or by the default |
| `AclSpec.PlainName` | pkg/acl/acl.go:88-98 | an operation without percent signs and semicolons is filed under itself, with a slash in front, in lower case |
| `AclSpec.PolicyForIsLast` | pkg/acl/acl.go:210-227 | the policy of an app is the last one written for its app id and namespace, and there is none exactly if none was written |
| `AclSpec.DefaultDecision` | pkg/acl/acl.go:44-63 | a caller without identity or without a policy for its app, namespace and trust domain is let through by the global default: a configured action that is "allow" in any case, or no action and an empty list of policies |
| `AclSpec.PolicyDecision` | pkg/acl/acl.go:210-260 | and any other by the last policy of its app, with that global default behind it |
| `AclSpec.MergeAllows` | pkg/acl/acl.go:297-302 | the merged action allows exactly when the last action is not empty and no named action refuses; it refuses by name exactly when a named action does |
| `AclSpec.NamedActionsMerge` | pkg/acl/acl.go:297-302 | with all actions named, the merged action allows exactly when all of them do, in any order |
| `AclSpec.EmptyActionIsForgotten` | pkg/acl/acl.go:297-302 | an empty action refuses when it comes last and is forgotten before |
| `Acl.Entry.Merge` | pkg/acl/acl.go:116-122 | one more operation of a name is merged into its entry, per verb and for the operation as a whole |
| `Acl.CompilePolicy` | pkg/acl/acl.go:88-123 | the trie compiled for a policy answers every operation with the entry of the declared name that the walk over the declared operations gives, holding the merged actions of all operations of that name |
| `Acl.IncompleteIsReported` | pkg/acl/acl.go:70-86 | an error is due exactly when some policy lacks a trust domain, a namespace or an app name |
| `Acl.ReportedApps` | pkg/acl/acl.go:70-86 | the error names exactly the apps whose policies lack a trust domain, and those whose policies lack a namespace |
| `Acl.ParseAccessControlSpec` | pkg/acl/acl.go:34-146 | no list exactly for an absent or empty spec, an error naming all incomplete policies exactly when there are some, and otherwise a list with the global default (see `AclSpec.DefaultDecision`), the trust domain of the spec or "public", and the last policy of every key, compiled |
| `Acl.KeysFindPolicies` | pkg/acl/acl.go:340-342 | of the key function alone, over all pairs of strings: lookups by key find the policy a scan finds if and only if no two policies of different apps share a key |
| `Acl.BarFreeAppIds` | pkg/acl/acl.go:340-342 | app ids without a bar keep keys apart |
| `Acl.BarHidesPolicy` | pkg/acl/acl.go:340-342 | of the key function alone: a collision of two keys with bars |
| `Acl.BarFreeKey` | pkg/acl/acl.go:340-342 | a key made of ids without bars is no other pair's key |
| `Acl.BarFreeCallerFinds` | pkg/acl/acl.go:210-227 | a caller without bars finds its own last policy, whatever the policies are |
| `Spiffe.IdentityHasNoBar` | pkg/security/spiffe/spiffe.go:51-69 | an identity read from a SPIFFE ID holds no bar |
| `Spiffe.IdentityRoundTrip` | pkg/security/spiffe/spiffe.go:51-89 | an identity made from strings is the one read from its ID, whose path is "/ns/", the namespace, a slash and the app id; it holds no bar |
| `Spiffe.IdentityIsNamed` | pkg/security/spiffe/spiffe.go:51-69 | an identity is read from a path exactly if the path is "/ns/", its namespace, a slash and its app id, and then ends or goes on with a slash |
| `Acl.CompiledDecidesAsScan` | pkg/acl/acl.go:196-260 | for every caller without bars under every spec, and for every caller under a spec whose keys tell apps apart, deciding by key is deciding by a direct scan: last policy of the app and namespace, trust domain fallback to the global default, and deny-wins merging |
| `Acl.Authorize` | pkg/acl/acl.go:34-260 | parsing a spec and deciding by the resulting list, together: the decision of a direct scan of every complete spec, for every operation and verb and every caller without bars, and for other callers if keys tell apps apart; a caller that no policy is about is let through exactly if the configured action is "allow", or none is configured and the list of policies is empty |
| `Acl.ApplyAccessControlPolicies` | pkg/acl/acl.go:148-175 | a peer with a malformed SPIFFE ID is refused; every other request, with or without an identity, is decided as by a direct scan of the spec, whatever the policies are |
| `Acl.OperationAction` | pkg/acl/acl.go:264-293 | the action for an operation allows exactly when the merged actions declared for the matched name and verb do, with the wildcard verb and the given action as fallbacks |
| `Acl.FindPolicy` | pkg/acl/acl.go:210-227 | a caller's policy is found exactly when one is filed under its key for its namespace and trust domain |
| `Acl.IsOperationAllowed` | pkg/acl/acl.go:196-260 | the compiled list's decision and the policy it is credited to are those of the spec, for every caller, operation and verb; without a list everything is allowed |
| `RetryCodes.CompilePattern` | pkg/resiliency/retry.go:174-208 | an accepted pattern is a non-empty range within the bounds |
| `RetryCodes.ParsePatterns` | pkg/resiliency/retry.go:153-172 | the loop compiles the comma-separated patterns, or refuses if one is refused, and gives ranges within the bounds |
| `RetryCodes.ParsePrinted` | pkg/resiliency/retry.go:153-208 | printing any non-empty list of ranges within the bounds and parsing it gives the list back |
| `RetryCodes.CompileNumber` | pkg/resiliency/retry.go:174-208 | a printed number is accepted if and only if its low 32 bits are a valid code, and read as written if and only if it is a valid code itself |
| `RetryCodes.CompileNumbers` | pkg/resiliency/retry.go:174-208 | the same for both ends of a printed range, in order |
| `RetryCodes.NarrowingAccepts` | pkg/resiliency/retry.go:174-208 | so every code has aliases: all numbers that are that code modulo 2^32 |
| `RetryCodes.AtoiReads` | pkg/resiliency/retry.go:174-208 | digits, with or without a sign, are read as their value if it fits into 64 bits, and refused otherwise |
| `RetryCodes.AtoiRefuses` | pkg/resiliency/retry.go:174-208 | and nothing else is read |
| `RetryCodes.EmptyPiecesSkipped` | pkg/resiliency/retry.go:153-172 | empty patterns are skipped wherever they stand |
| `RetryCodes.NoPatterns` | pkg/resiliency/retry.go:153-172 | no patterns at all retry everything, a lone comma nothing |
| `RetryCodes.MustRetryStatusCode` | pkg/resiliency/retry.go:138-151 | the scan finds out whether some range holds the code; without patterns every code is retried |
| `RetryCodes.LoopAgreesWithExcluded` | pkg/resiliency/retry.go:111-136 | the loop's rule and the rule of `RetryExcluded` agree on a code if and only if it is a gRPC or HTTP code or gRPC patterns are given |
| `RetryCodes.CodeOutsideBoth` | pkg/resiliency/retry.go:111-136 | they differ on code 17 without gRPC patterns |
| `Runner.RunKeepsInv` | pkg/resiliency/policy.go:199-356 | in every interleaving of runner, operation goroutines and deadlines, each value made is in one place: with its goroutine, in the channel, with the runner, disposed, dropped or given out |
| `Runner.ValuesAreOwnedOnce` | pkg/resiliency/policy.go:199-356 | at rest, with a disposer, each non-zero value was disposed exactly once or given to the caller, never both and never neither; with retries only a success gives one out |
| `Runner.AccumulatedOnce` | pkg/resiliency/policy.go:280-289 | at rest, a value was accumulated exactly once if its attempt did not time out, and not at all if it did |
| `Runner.NeverTwice` | pkg/resiliency/policy.go:199-356 | at every moment, no value is both disposed and given out or disposed twice, and none of a timed-out attempt is accumulated |
| `Runner.RunnerIsNeverStuck` | pkg/resiliency/policy.go:219-276 | with a timeout the runner can take a step of its own until it returns, whatever operations do |
| `Runner.WithoutTimeoutItWaits` | pkg/resiliency/policy.go:217-219 | while the runner makes the call itself, which it does only without a timeout, nothing can happen but the operation's return |
| `Runner.TimeoutIsRetried` | pkg/resiliency/policy.go:317-356 | in every interleaving, an attempt is followed by another exactly when the backoff goes on, it failed, and it timed out or no rule makes its error permanent (which errors those are: `Runner.ErrorsTriedAgain`); a timed-out attempt never ends in a permanent error |
| `Runner.ErrorsTriedAgain` | pkg/resiliency/policy.go:317-356 | the same by codes: an error with a code from 0 to 16 is tried again if the gRPC ranges hold it or there are none, one from 100 to 599 by the HTTP ranges, one with another code never, one without a code always unless it is permanent itself |
| `Runner.CallerGetsLastResult` | pkg/resiliency/policy.go:317-356 | what the caller gets is the last attempt's error, and its value unless that was disposed of |
| `Runner.RefusalIsFinal` | pkg/resiliency/policy.go:291-315 | a call that the breaker refuses is not tried again |
| `Runner.ExpiredTimesOut` | pkg/resiliency/policy.go:252-276 | an attempt whose context ends while the runner waits counts as timed out and passes the timeout on, whatever its operation returns later |
| `Runner.WhenTimedOut` | pkg/resiliency/policy.go:168-190 | an answer that is received is what the operation returned, and counts as a timeout exactly if it is an error and the context was done, the deadline had passed, or it was at most 16 ms away and the error has gRPC code 1 or 4 |
| `Runner.HandsOverWhatWasReturned` | pkg/resiliency/policy.go:222-251 | what waits in the channel of an attempt is what its operation returned |
| `Runner.EarlyAnswerStands` | pkg/resiliency/policy.go:168-190 | an answer without an error, or well before the deadline of a live context, is passed on, does not count as a timeout, and its value is not let go |
| `BreakerTable.RunKeepsInv` | pkg/resiliency/resiliency.go:1048-1078 | over every run of any number of threads: the lock excludes, and every breaker that was created and not removed is in the table or about to be |
| `BreakerTable.OneLiveBreaker` | pkg/resiliency/resiliency.go:1048-1078 | at every moment at most one breaker of a name is not removed |
| `BreakerTable.CallersShareTheBreaker` | pkg/resiliency/resiliency.go:1048-1071 | as long as nothing is removed, all finished callers for a component, inbound and outbound, hold the same breaker, and no other was ever created for that name |
| `BreakerTable.BreakersAsAsked` | pkg/resiliency/resiliency.go:1057-1070 | every breaker has the name and the template that one call of `Get` asked for |
| `BreakerTable.NeverStuck` | pkg/resiliency/resiliency.go:1048-1078 | while a call is unfinished, some thread can go on |
| `BreakerTable.CircuitBreakerInstances.LookUp` | pkg/resiliency/resiliency.go:1049-1054 | the look under the read lock is two steps of the thread: it ends with the table's breaker or as a miss |
| `BreakerTable.CircuitBreakerInstances.LookUpOrCreate` | pkg/resiliency/resiliency.go:1057-1070 | the second look under the write lock keeps the invariant of all threads and creates a breaker only if none is there by then |
| `BreakerTable.CircuitBreakerInstances.Get` | pkg/resiliency/resiliency.go:1048-1071 | with any steps of other threads while it waits for either lock: the caller gets the table's live breaker, one is created exactly if none was there when the deciding lock was taken, and one created in the meantime is used |
| `BreakerTable.CircuitBreakerInstances.Remove` | pkg/resiliency/resiliency.go:1074-1078 | afterwards every breaker created for the name is removed, and no other has become so |
| `HeldListener.RunKeepsInv` | pkg/runtime/runtime.go:1188-1278 | over every run of calls: at most one unreleased runtime listener, in use exactly when there is one, the socket closed exactly when given up and not in use, and closed at most once |
| `HeldListener.ClosedIffGivenUp` | pkg/runtime/runtime.go:1218-1240 | the listener is given up exactly after a process close, or after the release by a runtime whose context was live when it closed its listener for the first time |
| `HeldListener.PortStaysBound` | pkg/runtime/runtime.go:1188-1278 | the port is bound exactly until it was given up in one of these ways and the last holder let go, so it stays bound between restarts |
| `HeldListener.StaleCloseIsHarmless` | pkg/runtime/runtime.go:1271-1278 | a repeated close of a runtime's listener changes nothing, and no step of another takes the port from a holder |
| `HeldListener.RestartGetsThePort` | pkg/runtime/runtime.go:1200-1278 | after the release by a runtime that closed its listener with its context done, the port is bound and free and, if nothing else gave it up, the next runtime gets it |
| `HeldListener.ReleasingSince` | pkg/runtime/runtime.go:1271-1278 | a runtime that is letting go closed its listener before, while it was serving, and whether that is final is whether its context was live then |
| `HeldListener.WhoGetsThePort` | pkg/runtime/runtime.go:1200-1214 | a runtime gets the port exactly if it was not given up, nobody holds it and the deadline could be reset; otherwise nothing changes |
| `InternalGrpc.InternalGrpcListener.constructor` | cmd/daprd/app/app.go:114-153 | a new listener is bound and unused |
| `InternalGrpc.InternalGrpcListener.Listener` | pkg/runtime/runtime.go:1200-1214 | hands out a new runtime listener exactly when none is in use and the port is not given up, and moves as the specification does |
| `InternalGrpc.InternalGrpcListener.Close` | pkg/runtime/runtime.go:1218-1226 | moves as the specification's process close does |
| `InternalGrpc.InternalGrpcListener.Release` | pkg/runtime/runtime.go:1228-1240 | moves as the specification's release does |
| `InternalGrpc.InternalGrpcListener.CloseLocked` | pkg/runtime/runtime.go:1242-1249 | an open socket is closed once, a closed one is left |
| `InternalGrpc.RuntimeListener.Close` | pkg/runtime/runtime.go:1271-1278 | the first close unblocks `Accept` and releases the hold, finally exactly if the context is live; further ones do nothing |
| `ActorHosting.RunKeepsInv` | pkg/actors/actors.go:609-650 | over every interleaving of store changes, kicks and passes: a change the converge runner has not read is announced or will be at the end of its bracket |
| `ActorHosting.NoChangeIsLost` | pkg/actors/actors.go:328-337 | whenever no kick is pending or owed and no pass runs, the hosted revision, name and active flag are the store's, and the table hosts exactly when a store is there |
| `ActorHosting.DrainsAreDue` | pkg/actors/actors.go:624-650 | every drain leads from a store that was there to a later state in which it was gone or another one stood in its place |
| `ActorHosting.MovesAreDrained` | pkg/actors/actors.go:624-650 | hosting does not leave a store without a drain from that store before, with hosting suspended; and a drain is made only for a store that is gone or another one |
| `ActorHosting.OnePassConverges` | pkg/actors/actors.go:624-650 | once changes stop, one pass brings hosting in line with the store |
| `ActorHosting.Actors.constructor` | pkg/actors/actors.go:207-223 | hosting starts from the store's state, suspended if there is none |
| `ActorHosting.Actors.OnActorStateStoreChanged` | pkg/actors/actors.go:609-614 | a kick is pending afterwards, whether or not one was before |
| `ActorHosting.Actors.ConvergeHosting` | pkg/actors/actors.go:624-650 | a pass drains exactly when the hosted store vanished or was replaced, hosting is suspended before it moves, and fields and table are left as the specification does |
| `InvokeStream.SendRequest` | pkg/messaging/direct_messaging.go:414-472 | for every split of the body: the request goes out once and first, payloads are non-empty and numbered from zero modulo 2^64, they carry a prefix of the body, and all of it when the stream was closed without a send EOF, which is the case when nothing goes wrong; the loop ends at the first round in which the context is done, the reader fails, a send does not go through or the reader ends, with that cause and with all that was read by then sent |
| `InvokeStream.ReadChunk` | pkg/messaging/direct_messaging.go:714-727 | all of a payload is written, or as much as the pipe takes and an error |
| `InvokeStream.ReceiveStream` | pkg/messaging/direct_messaging.go:519-563 | the pipe is closed without an error exactly on streams that end, are numbered from zero, have metadata in the leading chunk only and meet no disturbance; then exactly their bytes were delivered; otherwise the bytes before the first chunk that does not pass, and of that one what the pipe took, all of it if only its number is wrong, and nothing if the context is done or it has metadata |
| `InvokeStream.NumberedByPosition` | pkg/messaging/direct_messaging.go:526-545 | checking each number against an expected one that counts up is checking that each payload's number is its position |
| `InvokeStream.RoundTrip` | pkg/api/grpc/daprinternal.go:152-200 | sender and receiver of a request together, with a transport that may break after any number of chunks: a prefix of the body arrives, a shorter body is never taken for the whole, and without trouble the whole body arrives |
| `InvokeRemote.Connection.Teardown` | pkg/messaging/direct_messaging.go:227-272 | a connection is released once, by its owner, and not while a reader is at work |
| `InvokeRemote.Connection.ReadInBackground` | pkg/messaging/direct_messaging.go:519-563 | the reader's connection is released once the reader has stopped, and is not destroyed; the pipe is closed without an error exactly as `InvokeStream.ReceiveStream` says |
| `InvokeRemote.Request.WithReplay` | pkg/messaging/v1/invoke_method_request.go:181-190 | a request that is not a streaming one can be replayed afterwards, a streaming one is left alone, and the bytes it gives are the same |
| `InvokeRemote.Request.Consume` | pkg/messaging/v1/replayable_request.go:76-103 | however much of a replayable stream is read, a new reader gives the same bytes; of another stream the bytes are gone |
| `InvokeRemote.InvokeRemoteUnary` | pkg/messaging/direct_messaging.go:368-380 | the unary call carries the whole body, even after the stream was read in part or in full |
| `InvokeRemote.InvokeRemoteStream` | pkg/messaging/direct_messaging.go:388-566 | on every return path the connection has one owner, the background reader exactly when a response is streamed and else the caller; what is sent is what the request holds, once; the data taken out of the message is back and a replayable request still holds its whole body; the unary fallback is taken exactly for an old sidecar and a replayable request |
| `InvokeRemote.InvokeOnce` | pkg/messaging/direct_messaging.go:315-350 | the same, with the making of the connection |
| `InvokeRemote.InvokeWithRetry` | pkg/messaging/direct_messaging.go:227-272 | over all attempts, whatever each one reads and loses: each connection is released exactly once or is with its reader, destroyed exactly after a failure with code unavailable or unauthenticated under the built-in policy; each attempt sends the same body, which the message or the replay buffer has kept; only such failures are tried again, and until the attempts run out |
| `InvokeRemote.InvokeToTheEnd` | pkg/messaging/direct_messaging.go:227-566 | when the background reader has ended too, every connection was released exactly once, and the caller has read a prefix of the response, all of it exactly when the stream was a good one to its end |
| `Base64.DecodeOfEncode` | pkg/encryption/state.go:54 | decoding undoes encoding for every byte string (section 4 of RFC 4648) |
| `Base64.Alphabet` | pkg/encryption/state.go:54 | the characters are those of section 4 of RFC 4648, in its order |
| `Base64.QuantumBits` | pkg/encryption/state.go:54 | three bytes and the values of their four characters are the same 24 bits, most significant first |
| `Base64.QuantumPads` | pkg/encryption/state.go:54 | missing bytes count as zero, and their characters are "=" |
| `Base64.DecodesIffWellPadded` | pkg/encryption/encryption.go:175-178 | line breaks aside, exactly the whole quanta of the alphabet decode, with at most two pads at the very end |
| `Base64.BreaksMakeNoDifference` | pkg/encryption/encryption.go:175-178 | a line feed or carriage return anywhere makes no difference |
| `Base64.DecodableInAlphabet` | pkg/encryption/encryption.go:175-178 | only characters of the alphabet, the pad and line breaks are accepted |
| `StateEnvelope.LastSeparator` | pkg/encryption/state.go:67-71 | the separator found is the last one, and there is none if it is -1 |
| `StateEnvelope.WhereTheNameStarts` | pkg/encryption/state.go:67-71 | the last separator of a record is the one before the key's name exactly when the name is legible |
| `StateEnvelope.DecryptOfEncrypt` | pkg/encryption/encryption.go:164-187 | decrypting what was encrypted under a nonce of the cipher's size gives the value |
| `StateEnvelope.RecordFormat` | pkg/encryption/state.go:47-57 | a record is the base64 form of the nonce and the sealed value, which has no bar, then "||" and the name of the primary key |
| `StateEnvelope.RecordsCanBeRead` | pkg/encryption/state.go:47-86 | as long as the key's name stands for its cipher, a record gives its value back exactly when the name is legible, and an error otherwise |
| `StateEnvelope.RoundTrip` | pkg/encryption/state.go:47-86 | under the same keys, for every value, if and only if the name is not empty, does not start with a bar and has no two bars in a row |
| `StateEnvelope.RoundTripAfterRotation` | pkg/encryption/state.go:75-79 | the same after the key became the secondary one under a primary key of another name |
| `StateEnvelope.ForgottenKey` | pkg/encryption/state.go:75-83 | a record whose key is configured no more is refused |
| `StateEnvelope.BarAtTheStartOfAName` | pkg/encryption/state.go:67-71 | under a name that starts with a bar the value is lost |
| `StateEnvelope.EncryptedStateStores.WithoutKeys` | pkg/encryption/state.go:44-86 | for a store that was not added, reading gives a value back if and only if it is empty and else an error, and writing panics |
| `StateEnvelope.EncryptedStateStores.WithKeys` | pkg/encryption/state.go:47-86 | what a store with a correct primary cipher writes, it reads back if and only if the key's name is legible |
| `StateEnvelope.EncryptedStateStores.Add` | pkg/encryption/state.go:29-36 | a store's keys are set once and never replaced |
| `AppHealth.ThresholdIsUsable` | pkg/runtime/config.go:579-586 | the threshold is 3 for a flag below 1, or whose low 32 bits are the greatest 32-bit number or a negative one but -1, and else those low 32 bits; it is usable if and only if the flag is not a positive number that is 0 or -1 modulo 2^32 |
| `AppHealth.EveryRun` | pkg/apphealth/health.go:168-242 | over every run of probes, probe errors and reports the 32-bit count never rests below zero, changes are triggered in strict alternation starting with healthy, and the status is the last one triggered |
| `AppHealth.EveryRunNeedsThreshold` | pkg/runtime/config.go:579-586 | all of that holds in every run if and only if the flag is not a positive number that is 0 or -1 modulo 2^32 |
| `AppHealth.FlagCutToZero` | pkg/runtime/config.go:579-586 | at the flag 2^32 two passing probes trigger two changes to healthy and leave the app unhealthy |
| `AppHealth.UnhealthyAtThreshold` | pkg/apphealth/health.go:180-242 | in runs of probes the app turns unhealthy exactly at the threshold-th failed or errored probe since it became healthy, whatever passed in between |
| `AppHealth.HealthyAtFirstPass` | pkg/apphealth/health.go:180-214 | an unhealthy app stays so without further changes through any number of bad probes, also past the overflow, and turns healthy at the first that passes |
| `AppHealth.PassesDoNotReset` | pkg/apphealth/health.go:192-199 | two failures with passes in between make an app unhealthy at a threshold of two |
| `AppHealth.ReportCounts` | pkg/apphealth/health.go:123-165 | a report, once taken, counts as a probe that changes the status does: healthy resets the count, unhealthy adds one and makes the app unhealthy from the threshold on; with probes only it is ignored |
| `AppHealth.SecondReportIsLost` | pkg/apphealth/health.go:151-165 | a report that comes while another waits is lost |
| `AppHealth.Monitor.constructor` | pkg/apphealth/health.go:59-73 | an app is unhealthy at first |
| `AppHealth.Monitor.GetStatus` | pkg/apphealth/health.go:168-176 | the status is that of the last change triggered |
| `AppHealth.Monitor.SetStatus` | pkg/apphealth/health.go:202-242 | moves as the specification does, with the 32-bit addition and its overflow |
| `AppHealth.Monitor.DoProbe` | pkg/apphealth/health.go:180-200 | errors always count, outcomes only when they differ from the status |
| `AppHealth.Monitor.ReportHealth` | pkg/apphealth/health.go:151-165 | a report waits if there is room and reports are wanted, and is lost otherwise |
| `AppHealth.Monitor.ReceiveReport` | pkg/apphealth/health.go:123-125 | a waiting report is taken and set |
| `AppHealth.Monitor.Run` | pkg/apphealth/health.go:116-134 | the loop over any events ends in the state of the specification, with all that holds of every run |
| `ResponseWriter.EverySequenceOfCalls` | pkg/responsewriter/response_writer.go:67-152 | for every sequence of calls with non-zero statuses, whatever before-functions call: the log is in order, a status went out exactly if a call commits, the size is that of the bytes accepted, and the before-functions registered ahead of the first committing call run exactly once each, last first, and no others |
| `ResponseWriter.SendsAsPlainWriter` | pkg/responsewriter/response_writer.go:67-152 | for every sequence of calls with non-zero statuses: what goes out is what a writer without before-functions sends for the same calls with those of the before-functions, last function first, put ahead of the first committing call: codes from 100 to 199 but 101 as they come, one final status, 200 if none is given, and the bytes; the size is the sum of the bytes written |
| `ResponseWriter.InOrder` | pkg/responsewriter/response_writer.go:67-112 | in order means: at most one final status, no body before it, no informational code after it |
| `ResponseWriter.StatusGoesOut` | pkg/responsewriter/response_writer.go:67-89 | the status asked for is the one recorded and goes out, unless a before-function sends one |
| `ResponseWriter.RegisteredTooLate` | pkg/responsewriter/response_writer.go:139-152 | a function registered by a before-function is not run |
| `ResponseWriter.Writer.constructor` | pkg/responsewriter/response_writer.go:42-46 | nothing is written at first |
| `ResponseWriter.Writer.Status` | pkg/responsewriter/response_writer.go:119-125 | the final status, or before that the one asked for |
| `ResponseWriter.Writer.WriteHeader` | pkg/responsewriter/response_writer.go:67-89 | moves as the specification does, from outside and from within a before-function |
| `ResponseWriter.Writer.Write` | pkg/responsewriter/response_writer.go:91-99 | the same for writes |
| `ResponseWriter.Writer.ReadFrom` | pkg/responsewriter/response_writer.go:104-112 | the same for copying from a reader |
| `ResponseWriter.Writer.Before` | pkg/responsewriter/response_writer.go:135-137 | the function is added last |
| `ResponseWriter.Writer.CallBefore` | pkg/responsewriter/response_writer.go:139-152 | the functions there are run from the last to the first, and not again from within |

## Left out

- Metrics, tracing, logging and audit messages: they record and decide nothing.
- gRPC, HTTP, TLS, SPIFFE and Kubernetes plumbing, name resolution and its cache, sentry, operator and startup code.
- Libraries whose source is elsewhere are assumptions: an AEAD opens what it sealed, a breaker refuses or runs the operation once, a backoff gives delays and honours "permanent", a gRPC stream delivers messages in order and signals its end only after the send direction was closed, a SPIFFE ID holds only the characters its standard allows.
- Forging of encrypted records: nothing is claimed of records that were not written by the code.
- `ComponentEncryptionKey` and the secret stores behind it; key material is taken as configured.
- Overlapping attempts on one request, which a user-defined timeout policy can produce around remote invocation: attempts follow one another here.
- The lock-free branches of `EndpointPolicy` and `ActorPreLockPolicy`, the LRU caches of breakers, and the decoding, defaulting and template expansion of resiliency policies.
- The timing of a blocked `Accept` around deadline resets: the listener is modelled at the granularity of its lock.
- `Flush` of the response writer, which may commit headers inside the underlying writer; writing the status zero, which net/http refuses.
- Wall-clock precision: time is an integer that does not go back, with the 16 ms tolerance as a constant.
- Case folding beyond ASCII: strings are bytes, and `ToLower` changes A to Z.
- The wrap-around of the 64-bit store revision in actor hosting.
- Enqueueing and the ticker of health probes: when probes happen is left to the run.
- Actor turns, placement, pub/sub, workflows, bindings, state queries and the other building blocks.
