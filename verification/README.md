# A verified model of pyca/cryptography's non-trivial logic

This Dafny project models the parts of `cryptography` whose correctness is not settled by the
primitives they call: X.509 path building with name constraints, the RFC 4514 name printer and
parser, AES key wrap, the PKCS#12 and OpenSSL password KDFs, padding and cipher streaming, and the
compositions built from them (CBC helpers, Fernet, S/MIME text). Each loop or object that works in
place is a method or class proved equal to a specification function, and the theorems are about
those functions. `dafny verify dfyconfig.toml` checks everything.

| file | what it models |
|---|---|
| `Common.dfy`, `BigEndian.dfy`, `Bits.dfy` | results, bytes, big-endian numbers and their bits |
| `DomainNames.dfy`, `MailNames.dfy`, `IpConstraints.dfy` | the DNS, RFC 822 and IP names and their constraints |
| `Certificates.dfy` | parsed certificates, duplicate-free extensions, the trust store and its index |
| `NameConstraints.dfy` | the work budget and the evaluation of name constraints over a chain of names |
| `ChainBuilding.dfy`, `ChainSearch.dfy`, `ChainGuarantees.dfy` | the backtracking search, its routes, and what `verify` guarantees |
| `ChainOrder.dfy` | the order of the search on the lists it is given, and which error it reports |
| `ChainNames.dfy`, `SearchCost.dfy` | what a verified chain means for the names in it, and how many checks a search can need |
| `DistinguishedNames.dfy`, `Rfc4514Parser.dfy`, `Rfc4514RoundTrip.dfy` | printing, parsing, and the round trip |
| `Rfc4514Grammar.dfy`, `Rfc4514Values.dfy` | the languages of the four patterns, and what the characters of a name stand for |
| `KeyWrap.dfy`, `KeyWrapShift.dfy` | AES key wrap, with and without padding, and the shifting method it equals |
| `PasswordKdfs.dfy`, `PasswordText.dfy` | the PKCS#12 KDF and the OpenSSL password KDF, and the bytes of a password |
| `Padding.dfy`, `Ciphers.dfy`, `SymmetricHelpers.dfy`, `AeadContexts.dfy` | padding checks and contexts, the chunked cipher context, the CBC helpers, the AEAD state machines |
| `Fernet.dfy`, `SmimeText.dfy` | Fernet tokens and key rotation, line-ending canonicalisation |

How it is modelled:

- Foreign code is a parameter with its laws stated: AES is any block permutation (`IsAes`), a cipher
  mode is any pair of inverse streaming transforms (`Mode.Lawful`), a hash has a fixed digest length
  (`Hash.Valid`), Fernet's HMAC is any deterministic 32-byte function and base64 any decodable encoding
  (`Crypto.Lawful`); `Fernet.LawsCanBeMet`, `KeyWrap.PermutationsExist` and `Hashing.SmallestHash` exhibit
  functions that obey these laws. DER decoding has already happened: an extension's value is what it decodes
  as, or `Undecodable`.
- `permits_ee` and `valid_issuer` are arbitrary functions of the arguments the search gives them, so
  the guarantees hold for every policy.
- The search and the name-constraint scans are specified without a budget, as a result together with
  the number of checks made (`Counted`). Every method that carries the budget is proved equal to its
  specification cut off at the checks it has left (`WithBudget`), and to leave exactly the rest.
- Time, random IVs and OpenSSL's answers are inputs of the calls that use them.
- Error texts are reduced to reasons; which error is returned, and when, is kept.

Where the code does less than one would expect, that is proved as such.

- A candidate whose extensions or names cannot be read ends its whole level of the search
  (`src/rust/cryptography-x509-verification/src/lib.rs:371`, `:396-400`, `:411`):
  `ChainGuarantees.AbandonedLevel` gives an input where a valid chain is missed, and
  `ChainGuarantees.SearchIsExact` says exactly which chains are not.
- DNS constraints look at the inner name of a SAN pattern only (`:158-167`). The comment there, that a
  constraint matching the inner name covers any wildcard, is true (`DomainNames.WildcardCovered`). But an
  excluded subtree rooted at a name below the wildcard is missed: `DomainNames.ExclusionIsExact` says for
  which constraints and patterns the verdict is the right one, and
  `NameConstraintEvaluation.ExcludedNameSlips` shows `*.foo.com` accepted with `a.foo.com` excluded.
- A value that is a single space is escaped twice (`src/cryptography/x509/name.py:91-94`) and does not
  survive; `Rfc4514RoundTrip.RoundTrip` is an if-and-only-if with that case on the other side, and
  `Rfc4514RoundTrip.SpaceReadsAsBackslash` shows it.
- The empty key is wrapped with padding to something unwrapping refuses (`KeyWrap.EmptyKeyIsLost`). A
  wrapped length over 16 that is not a multiple of 8 is not looked for when unwrapping with padding
  (`src/cryptography/hazmat/primitives/keywrap.py:106-149`); the short last piece unbalances the
  decryption context, so that its `finalize` raises a `ValueError` for all such inputs.
- A Fernet token that is not ASCII raises a plain `ValueError` that is not turned into an invalid token
  (`src/cryptography/fernet.py:113-116`).

## Model

| member | source | states |
|---|---|---|
| `DomainNames.ParentMeaning` | src/rust/cryptography-x509-verification/src/types.rs:73-78 | A valid name has a parent exactly if it has two labels or more; the parent's labels are all but the first, and the name is that label, a dot and the parent. |
| `DomainNames.SubdomainMeaning` | src/rust/cryptography-x509-verification/src/types.rs:82-95 | The length guard with the zipped reversed labels holds exactly when the other name's labels are a proper case-insensitive label suffix, equivalently when the name ends in a dot and the other name. |
| `DomainNames.ConstraintMatchesMeaning` | src/rust/cryptography-x509-verification/src/types.rs:181-195 | For all texts the fast comparison is equivalent to a case-insensitive label suffix and to equality or ending in "." plus the constraint. |
| `DomainNames.TextSuffixIsLabelSuffix` | src/rust/cryptography-x509-verification/src/types.rs:165-180 | The two independent readings of "below", on text and on labels, agree, also for the proper one. |
| `DomainNames.PatternNames` | src/rust/cryptography-x509-verification/src/types.rs:131-153 | A name a pattern matches has the inner name as label suffix, with exactly one label more for a wildcard and none otherwise. |
| `DomainNames.WildcardCovered` | src/rust/cryptography-x509-verification/src/lib.rs:158-167 | A constraint that matches the inner name of a SAN pattern matches every name the pattern matches. |
| `DomainNames.PatternHasNames` | src/rust/cryptography-x509-verification/src/types.rs:131-153 | A pattern matches some name exactly if it is not a wildcard over more than 251 characters. |
| `DomainNames.InnerNameMatchIsExact` | src/rust/cryptography-x509-verification/src/lib.rs:158-167 | Matching the inner name is equivalent to matching all names of the pattern, for every pattern but a wildcard whose names would be too long, which has none. |
| `DomainNames.PatternMeetsSubtree` | src/rust/cryptography-x509-verification/src/lib.rs:158-167 | Some name of the pattern lies in the subtree exactly if the inner name matches (and the pattern has names) or the constraint is itself a name of the pattern. |
| `DomainNames.ChildMissesInner` | src/rust/cryptography-x509-verification/src/lib.rs:164-167 | A constraint that is a name below a wildcard is never matched by the inner-name test. |
| `DomainNames.ExclusionIsExact` | src/rust/cryptography-x509-verification/src/lib.rs:158-167 | The inner-name verdict equals "some name of the pattern lies in the subtree" if and only if the constraint is not a name below the wildcard, and the inner name does not match for a wildcard too long to have names. |
| `DomainNames.DnsNameMeaning` | src/rust/cryptography-x509-verification/src/types.rs:34-60 | A text is a DNS name exactly if it has at most 253 characters and is runs of 1 to 63 letters, digits and inner hyphens with single dots between, said without splitting it. |
| `DomainNames.CaseMeaning` | src/rust/cryptography-x509-verification/src/types.rs:98-103 | Names are equal exactly if their characters are equal pairwise or one ASCII letter in two cases. |
| `DomainNames.PatternForms` | src/rust/cryptography-x509-verification/src/types.rs:123-129 | A pattern is a wildcard over a name exactly if it is `*.` and the name, and exact exactly if it is the name. |
| `DomainNames.PatternMatchesMeaning` | src/rust/cryptography-x509-verification/src/types.rs:131-140 | A pattern matches exactly the names that end in its inner name, with one label more for a wildcard and none otherwise. |
| `MailNames.ConstraintForms` | src/rust/cryptography-x509-verification/src/types.rs:394-403 | Which of the three constraint forms a text takes is decided by a leading dot and by being a mailbox; the forms exclude one another for every text. |
| `MailNames.DomainFormsPartition` | src/rust/cryptography-x509-verification/src/types.rs:405-412 | The host form and the domain form never both match, and together match exactly the mailboxes whose host a DNS constraint on that domain matches. |
| `MailNames.MailNameMeaning` | src/rust/cryptography-x509-verification/src/types.rs:351-380 | A mailbox name is exactly a dot-atom of the characters of RFC 2822, an `@` and a DNS name. |
| `IpConstraints.IpFromBytes` | src/rust/cryptography-x509-verification/src/types.rs:215-227 | Whatever is built from octets is a full-width address of its family. |
| `IpConstraints.AsPrefixMeaning` | src/rust/cryptography-x509-verification/src/types.rs:232-249 | A mask yields prefix p exactly if it is p ones followed by zeros. |
| `IpConstraints.ShrMeaning` | src/rust/cryptography-x509-verification/src/types.rs:258-281 | The right shift leaves the number without its low bits. |
| `IpConstraints.ShlMeaning` | src/rust/cryptography-x509-verification/src/types.rs:258-281 | The left shift multiplies by a power of two and drops the high bits. |
| `IpConstraints.MaskWordMeaning` | src/rust/cryptography-x509-verification/src/types.rs:258-281 | The two checked shifts produce p ones then zeros for every p, 0 and over-long prefixes included. |
| `IpConstraints.MaskKeepsPrefix` | src/rust/cryptography-x509-verification/src/types.rs:258-281 | Masking keeps the first min(p, width) bits and clears all others. |
| `IpConstraints.MasksCompose` | src/rust/cryptography-x509-verification/src/types.rs:258-281 | Masking twice is masking once with the smaller prefix. |
| `IpConstraints.ConstraintParses` | src/rust/cryptography-x509-verification/src/types.rs:308-328 | Octets are accepted exactly if they are 8 or 32 and their second half is a contiguous mask. |
| `IpConstraints.ConstraintMeaning` | src/rust/cryptography-x509-verification/src/types.rs:308-332 | An accepted constraint matches exactly the addresses of its family with `addr & mask == net & mask` on the raw octets. |
| `IpConstraints.IpFromBytesMeaning` | src/rust/cryptography-x509-verification/src/types.rs:215-227 | Four octets give an IPv4 address and sixteen an IPv6 address whose bits are the big-endian number of the octets; nothing else gives one. |
| `IpConstraints.ConstraintParsesAsNumber` | src/rust/cryptography-x509-verification/src/types.rs:232-249 | A constraint parses exactly if it has 8 or 32 octets and the number of its second half is ones followed by zeros. |
| `IpConstraints.ConstraintOnOctets` | src/rust/cryptography-x509-verification/src/types.rs:308-332 | Matching is one family and `addr & mask == net & mask`, octet by octet. |
| `Bits.BigEndianValue` | src/rust/cryptography-x509-verification/src/types.rs:215-227 | The bits taken from octets are the binary digits of their big-endian number, the most significant first. |
| `Certificates.FromRawExtensions` | src/rust/cryptography-x509/src/extensions.rs:28-45 | The loop over a set of seen OIDs reports the first extension that repeats an earlier OID, or hands the list on. |
| `Certificates.FirstDuplicateMeaning` | src/rust/cryptography-x509/src/extensions.rs:36-41 | Nothing is reported exactly if the list has no duplicates; otherwise the OID is at two positions with a duplicate-free list before the second. |
| `Certificates.ExtensionsAreDuplicateFree` | src/rust/cryptography-x509/src/extensions.rs:28-45 | Extensions are readable exactly if absent or duplicate-free, what is read is duplicate-free, and an error names an OID that occurs twice. |
| `Certificates.FindMeaning` | src/rust/cryptography-x509/src/extensions.rs:49-51 | In a duplicate-free list, looking up an extension's OID returns that extension exactly if it is a member. |
| `TrustStore.NewStore` | src/rust/cryptography-x509-verification/src/trust_store.rs:18-28 | The index answers every subject with the linear scan of the list, in list order. |
| `TrustStore.WithSubjectMeaning` | src/rust/cryptography-x509-verification/src/trust_store.rs:35-40 | A certificate is in the scan for a subject exactly if it is in the list and has that subject. |
| `TrustStore.StoreIsTheList` | src/rust/cryptography-x509-verification/src/trust_store.rs:18-40 | A built store files certificates under their own subjects and contains exactly the list. |
| `NameConstraintEvaluation.Budget.constructor` | src/rust/cryptography-x509-verification/src/lib.rs:103-111 | A fresh budget holds 2^20 checks. |
| `NameConstraintEvaluation.Budget.NameConstraintCheck` | src/rust/cryptography-x509-verification/src/lib.rs:113-121 | One check is taken, or the error is fatal and nothing is left. |
| `NameConstraintEvaluation.EvaluateSingleConstraint` | src/rust/cryptography-x509-verification/src/lib.rs:148-223 | One pair costs one check, before anything is parsed, and then has the verdict of its kind: applied, skipped, malformed SAN before malformed constraint, or unsupported. |
| `NameConstraintEvaluation.KindsDecide` | src/rust/cryptography-x509-verification/src/lib.rs:148-223 | A pair is skipped exactly if the two names are of different kinds, and a pair of one of the six other kinds is always an unsupported constraint. |
| `NameConstraintEvaluation.DnsVerdicts` | src/rust/cryptography-x509-verification/src/lib.rs:157-177 | A pair of DNS names: an unreadable SAN before an unreadable constraint, else the text suffix of the inner name. |
| `NameConstraintEvaluation.IpVerdicts` | src/rust/cryptography-x509-verification/src/lib.rs:178-193 | A pair of IP names: an unreadable SAN before an unreadable constraint, else equality under the mask on the octets. |
| `NameConstraintEvaluation.EvaluatePermitted` | src/rust/cryptography-x509-verification/src/lib.rs:236-247 | The early-exit loop is the unbudgeted scan of the permitted subtrees, cut off by the budget. |
| `NameConstraintEvaluation.EvaluateExcluded` | src/rust/cryptography-x509-verification/src/lib.rs:255-264 | The same for the excluded subtrees. |
| `NameConstraintEvaluation.EvaluateOneSan` | src/rust/cryptography-x509-verification/src/lib.rs:234-265 | Permitted subtrees are decided before excluded ones and use the budget in that order. |
| `NameConstraintEvaluation.NameChain.EvaluateConstraints` | src/rust/cryptography-x509-verification/src/lib.rs:225-268 | The recursive method over the chain is the unbudgeted evaluation, children first, cut off by the budget, and leaves exactly the checks not used. |
| `NameConstraintEvaluation.ScanPermittedMeaning` | src/rust/cryptography-x509-verification/src/lib.rs:236-247 | The permitted scan says yes exactly if every failing pair stands behind a match and either some subtree matches or none applies (given the verdict so far). |
| `NameConstraintEvaluation.ScanExcludedMeaning` | src/rust/cryptography-x509-verification/src/lib.rs:255-264 | The excluded scan passes exactly if no pair fails and no pair matches. |
| `NameConstraintEvaluation.EvaluateSanMeaning` | src/rust/cryptography-x509-verification/src/lib.rs:234-265 | One name passes exactly if it is permitted, not excluded, and no failing pair is met on the way. |
| `NameConstraintEvaluation.EvaluationMeaning` | src/rust/cryptography-x509-verification/src/lib.rs:225-268 | Evaluation succeeds exactly if every name collected on the whole chain is accepted. |
| `NameConstraintEvaluation.CleanEvaluation` | src/rust/cryptography-x509-verification/src/lib.rs:225-268 | With no malformed or unsupported pair, success is: every name has a matching permitted subtree or no applicable one, and no matching excluded subtree. |
| `NameConstraintEvaluation.EvaluationNotFatal` | src/rust/cryptography-x509-verification/src/lib.rs:225-268 | Without the budget no evaluation is fatal, so only exhaustion makes one so. |
| `NameConstraintEvaluation.ExcludedNameSlips` | src/rust/cryptography-x509-verification/src/lib.rs:255-264 | With `a.foo.com` excluded, the SAN `*.foo.com` passes although it stands for `a.foo.com`, which is excluded on its own. |
| `ChainBuilding.ChainBuilder.BuildChainInner` | src/rust/cryptography-x509-verification/src/lib.rs:337-362 | The recursive method, on every input including cyclic issuers, terminates with the unbudgeted search cut off by the budget, and leaves exactly the checks not used across all backtracking. |
| `ChainBuilding.ChainBuilder.TryIssuers` | src/rust/cryptography-x509-verification/src/lib.rs:364-451 | The loop over the candidates, with its early returns, its fatal exit and its last error, is the specified one up to the budget. |
| `ChainBuilding.ChainBuilder.BuildChain` | src/rust/cryptography-x509-verification/src/lib.rs:453-479 | The leaf is read, permitted (its error naming the leaf) and searched from, and the chain is returned leaf first, up to the budget. |
| `ChainBuilding.Verify` | src/rust/cryptography-x509-verification/src/lib.rs:273-283 | A run with a fresh budget returns the search cut off at 2^20 checks. |
| `ChainGuarantees.PotentialIssuersMeaning` | src/rust/cryptography-x509-verification/src/lib.rs:323-335 | Candidates are exactly the store and intermediate certificates whose subject is the issuer's name; their order is the next two rows'. |
| `ChainOrder.CandidatesAreOneScan` | src/rust/cryptography-x509-verification/src/lib.rs:323-335 | The candidates are one scan, by the issuer's name, of the trusted list followed by the intermediates, each in the order given. |
| `ChainOrder.TrustedComeFirst` | src/rust/cryptography-x509-verification/src/lib.rs:323-335 | Every trusted certificate with the issuer's name stands before every such intermediate. |
| `ChainOrder.PositionsMeaning` | src/rust/cryptography-x509-verification/src/trust_store.rs:18-40 | The positions a scan stops at increase and are exactly those of the certificates with the subject, which it returns. |
| `ChainSearch.RouteFound` | src/rust/cryptography-x509-verification/src/lib.rs:364-430 | If a route of candidates exists with no abandoning one ahead of it at any level, the search succeeds. |
| `ChainSearch.FirstRoute` | src/rust/cryptography-x509-verification/src/lib.rs:337-451 | A chain found is a route, and every other route comes later in depth-first order. |
| `ChainSearch.SearchNotFatal` | src/rust/cryptography-x509-verification/src/lib.rs:418-428 | The search itself never fails fatally, whatever the policy returns inside it. |
| `ChainGuarantees.RouteMeaning` | src/rust/cryptography-x509-verification/src/lib.rs:337-451 | The recursive view of a route with its growing chain of names is equivalent to conditions on each member of the path. |
| `ChainGuarantees.SearchIsExact` | src/rust/cryptography-x509-verification/src/lib.rs:337-479 | For all certificates, stores and policies the search succeeds exactly if there is an admissible path with no level-abandoning candidate ahead of it. |
| `ChainGuarantees.SearchFindsFirst` | src/rust/cryptography-x509-verification/src/lib.rs:367-430 | The chain found is such a path and is first in depth-first order of the candidate lists; any path not after it is the same chain. |
| `ChainGuarantees.AdmissibleLength` | src/rust/cryptography-x509-verification/src/lib.rs:358-362 | An admissible path has at most min(max_chain_depth + 2, 256) members. |
| `ChainGuarantees.AdmissibleNames` | src/rust/cryptography-x509-verification/src/lib.rs:345-347 | Every name collected at or below a member that carries constraints is permitted and not excluded by them, with no unreadable pair left undecided; only self-issued members above the leaf contribute none. |
| `ChainGuarantees.VerifyIsSound` | src/rust/cryptography-x509-verification/src/lib.rs:273-479 | Any chain `verify` returns starts at the permitted leaf, ends at its first member in the store, is linked by name and accepted issuer by issuer at depth = index, satisfies all name constraints, and is bounded in length. |
| `ChainGuarantees.VerifyIsComplete` | src/rust/cryptography-x509-verification/src/lib.rs:273-479 | If all candidates can be read, max_chain_depth is at most 254 and the budget suffices, `verify` succeeds exactly if an admissible path exists. |
| `ChainGuarantees.VerifyReturnsFirst` | src/rust/cryptography-x509-verification/src/lib.rs:323-335 | If no candidate abandons its level, the chain returned precedes all other admissible paths in depth-first order of the candidate lists, and is the only one that does. |
| `ChainOrder.VerifyReturnsFirstListed` | src/rust/cryptography-x509-verification/src/lib.rs:323-335 | The same order said over the inputs: each further member is taken from a position in the trusted list followed by the intermediates, and the chain returned has the first positions of all admissible paths. |
| `ChainGuarantees.AbandonedLevel` | src/rust/cryptography-x509-verification/src/lib.rs:371 | A concrete store where a duplicated extension in one root hides a valid one: an admissible path exists and `verify` returns the extension error. |
| `ChainGuarantees.FatalIsBudget` | src/rust/cryptography-x509-verification/src/lib.rs:113-121 | `verify` ends in the fatal error exactly if the search needs more than 2^20 checks, and otherwise the budget changes nothing (for a policy whose leaf error is not itself fatal). |
| `ChainGuarantees.SearchErrorsAreFlat` | src/rust/cryptography-x509-verification/src/lib.rs:434-450 | However deep the search fails, "candidates exhausted" wraps at most once, unless the policy itself returned an error nested as deep; no hypothesis on the policy. |
| `ChainOrder.LeafErrors` | src/rust/cryptography-x509-verification/src/lib.rs:453-479 | A leaf whose extensions repeat, or that the policy refuses, fails with that error, which in the second case names the leaf. |
| `ChainOrder.NoCandidatesError` | src/rust/cryptography-x509-verification/src/lib.rs:434-450 | Without any candidate the error is exhaustion with no interior error. |
| `ChainOrder.LastRejectionIsReported` | src/rust/cryptography-x509-verification/src/lib.rs:364-450 | If the policy rejects every candidate, the last rejection is reported inside the exhaustion. |
| `SearchCost.EvaluationCost` | src/rust/cryptography-x509-verification/src/lib.rs:225-268 | Evaluating constraints takes at most one check per name on the chain and subtree. |
| `SearchCost.ChecksAreBounded` | src/rust/cryptography-x509-verification/src/lib.rs:337-479 | The checks of a search never exceed a number computed from the most SANs, subtrees and candidates of one certificate and the depth limit. |
| `SearchCost.NoSubtreesNoChecks` | src/rust/cryptography-x509-verification/src/lib.rs:345-347 | If no certificate carries a subtree, the search makes no check at all, whatever the issuers. |
| `SearchCost.SmallInputsAreDecided` | src/rust/cryptography-x509-verification/src/lib.rs:99-122 | When that number is within 2^20 the budget changes nothing, and if all candidates can be read, `verify` succeeds exactly if an admissible path exists. |
| `ChainNames.VerifiedDnsNames` | src/rust/cryptography-x509-verification/src/lib.rs:148-268 | In a chain `verify` returns, every DNS name a member's SAN pattern matches has a permitted DNS subtree above it as label suffix, if there are any, and no excluded one, unless that one is a name below the wildcard. |
| `ChainNames.VerifiedIpAddresses` | src/rust/cryptography-x509-verification/src/lib.rs:148-268 | Every IP address of a member lies in a permitted network above it, if there are any, and in no excluded one, by family and `addr & mask == net & mask` on the subtree's octets. |
| `ChainNames.VerifiedMailboxes` | src/rust/cryptography-x509-verification/src/lib.rs:148-268 | Every mailbox of a member is covered by a permitted mail subtree above it, if there are any, and by no excluded one: below the host for a leading dot, that mailbox for an `@`, that host otherwise. |
| `ChainNames.VerifiedSansAreRead` | src/rust/cryptography-x509-verification/src/lib.rs:164-205 | A DNS, IP or mail SAN with a subtree of its kind above it is readable, so that these three speak of it. |
| `ChainNames.VerifiedOtherNames` | src/rust/cryptography-x509-verification/src/lib.rs:206-219 | In a chain `verify` returns, a SAN of one of the six other kinds has no permitted and no excluded subtree of its own kind above it. |
| `ChainNames.OtherKindsAreAlone` | src/rust/cryptography-x509-verification/src/lib.rs:206-219 | A name of such a kind is accepted only if no subtree is of its kind. |
| `ChainNames.ForeignSubtreesAccept` | src/rust/cryptography-x509-verification/src/lib.rs:220 | Subtrees of other kinds alone never refuse a name. |
| `ChainNames.SansAtMeaning` | src/rust/cryptography-x509-verification/src/lib.rs:130-146 | The names a member contributes are those of its own extension, and none for a member above the leaf whose issuer is its subject. |
| `ChainNames.CarriedMeaning` | src/rust/cryptography-x509-verification/src/lib.rs:345-347 | The constraints a member imposes are those of its own extension. |
| `ChainNames.UnreadableMeaning` | src/rust/cryptography-x509-verification/src/lib.rs:130-146 | Names or constraints are unreadable exactly if their extension does not decode, except that a self-issued member above the leaf is not asked for its names. |
| `DistinguishedNames.EscapeValue` | src/cryptography/x509/name.py:70-96 | The eight replacements in turn and the two end rules give the one-pass specification of an escaped value. |
| `DistinguishedNames.ReplacementsAreOnePass` | src/cryptography/x509/name.py:81-89 | The sequential replacements equal one left-to-right map, so none rewrites what another inserted. |
| `Rfc4514Values.TableIsBijective` | src/cryptography/x509/name.py:50-61 | The table of short names and its inverse agree in both directions. |
| `Rfc4514Values.AttributeTable` | src/cryptography/x509/name.py:50-61 | The nine short names and their OIDs, written out. |
| `Rfc4514Values.NamePrinted` | src/cryptography/x509/name.py:198-213 | An override comes before the table and the dotted string is the last resort. |
| `Rfc4514Values.PlainTextIsPrinted` | src/cryptography/x509/name.py:70-96 | Text that the grammar takes as it stands is printed as it stands. |
| `Rfc4514Values.PrintedForm` | src/cryptography/x509/name.py:319-335 | The last RDN is printed first, its attributes in their order, with equals signs, plus signs and commas. |
| `Rfc4514Values.AttributesBuilt` | src/cryptography/x509/name.py:63-67 | Common names have 1 to 64 bytes of UTF-8, both country attributes 2, nothing else a limit, and octets go with one OID only. |
| `Rfc4514Parser.NameParser.constructor` | src/cryptography/x509/name.py:400-404 | The parser starts at the beginning of the text. |
| `Rfc4514Parser.NameParser.ReadChar` | src/cryptography/x509/name.py:414-417 | One character is consumed exactly if it is the next one. |
| `Rfc4514Parser.NameParser.ReadRe` | src/cryptography/x509/name.py:419-425 | The greedy match of one of the four patterns at the index, with every Unicode decimal digit where the pattern has `\d` and ASCII ones where it has `[1-9]`, is returned and consumed, or the index stays. |
| `Rfc4514Grammar.LongestMatch` | src/cryptography/x509/name.py:374-398 | Each of the four scanners matches the longest front of any text that is in the language of its pattern, the languages being given in the character codes of RFC 4514, and nothing if no front is. |
| `Rfc4514Parser.NameParser.ParseType` | src/cryptography/x509/name.py:456-467 | The type is read as an OID first and as a descriptor with an OID otherwise, as the grammar does. |
| `Rfc4514Parser.NameParser.ParseValue` | src/cryptography/x509/name.py:469-475 | The value is read as hexadecimal UTF-8 exactly after a `#`, and else as an escaped string. |
| `Rfc4514Values.UnhexlifyHexlify` | src/cryptography/x509/name.py:79 | Reading back the printed octets gives the octets, for all octets. |
| `Rfc4514Values.UnhexlifyMeaning` | src/cryptography/x509/name.py:472 | Exactly an even number of ASCII hexadecimal digits is read, and each octet is 16 times its first digit plus its second. |
| `Rfc4514Values.UnescapeHex` | src/cryptography/x509/name.py:107-115 | A backslash and two hexadecimal digits, whatever follows, stand for the character whose code is 16 times the first plus the second. |
| `Rfc4514Values.UnescapeHexlified` | src/cryptography/x509/name.py:107-115 | A backslash and the hexadecimal form of a byte, in lower or upper case, is the character with that code. |
| `Rfc4514Values.UnescapeBadHex` | src/cryptography/x509/name.py:113 | Two letters or digits that are not both hexadecimal are an error. |
| `Rfc4514Values.OctetsArePrinted` | src/cryptography/x509/name.py:469-472 | Printed octets are read as the text they encode in UTF-8, or refused if they encode none. |
| `Rfc4514Parser.NameParser.ParseAttribute` | src/cryptography/x509/name.py:456-477 | The method on the index reads what the grammar reads from the remaining text and fails when it fails. |
| `Rfc4514Parser.NameParser.ParseOneRdn` | src/cryptography/x509/name.py:448-454 | The `+` loop collects the attributes the recursive grammar does, in order, and refuses what an RDN may not be. |
| `Rfc4514Parser.NameParser.Parse` | src/cryptography/x509/name.py:427-446 | The `,` loop reads the whole text as the grammar does and returns the RDNs reversed. |
| `Rfc4514Values.ParsedNamesAreBuilt` | src/cryptography/x509/name.py:427-477 | A parsed name has no empty RDN, no attribute twice in one, text values only, and lengths within the limits. |
| `Rfc4514Values.RdnsBuilt` | src/cryptography/x509/name.py:448-454 | Attributes read make an RDN exactly if none is repeated. |
| `Rfc4514RoundTrip.EscapedValueReads` | src/cryptography/x509/name.py:379-398 | For every value but the single space the value pattern consumes exactly its escaped text, whatever separator follows, and unescapes it to the value. |
| `Rfc4514RoundTrip.UnescapeEscape` | src/cryptography/x509/name.py:70-115 | Unescaping undoes escaping for every string, except exactly the single space. |
| `Rfc4514RoundTrip.SpaceReadsAsBackslash` | src/cryptography/x509/name.py:91-94 | The single space is printed as two backslashes and a space, of which the pattern reads a backslash and leaves the space. |
| `Rfc4514RoundTrip.TypeReads` | src/cryptography/x509/name.py:456-467 | A readable attribute name followed by "=" is read to the end and gives its OID back. |
| `Rfc4514RoundTrip.DefaultNamesReadable` | src/cryptography/x509/name.py:190-213 | Without overrides every dotted OID prints as something the parser takes back to it. |
| `Rfc4514RoundTrip.NasRead` | src/cryptography/x509/name.py:249-261 | The printed attributes of an RDN are read back in order, up to a comma or the end. |
| `Rfc4514RoundTrip.NasStuck` | src/cryptography/x509/name.py:249-261 | With a single-space value among them the reader, if it gets through, stops before a bare space. |
| `Rfc4514RoundTrip.RdnsRead` | src/cryptography/x509/name.py:319-335 | Joined RDNs are read back if no value is a single space, and are refused if one is. |
| `Rfc4514RoundTrip.RoundTrip` | src/cryptography/x509/name.py:319-335 | For every valid printable name, parsing the printed text returns the name if and only if all values are text and none is the single space. |
| `Rfc4514RoundTrip.DefaultRoundTrip` | src/cryptography/x509/name.py:311-335 | With the built-in names the round trip holds for all valid names of such values, reversed RDN order and `+` included. |
| `Rfc4514RoundTrip.OidMatchIsFull` | src/cryptography/x509/name.py:374 | What the OID pattern matches at the front of any text is an OID as a whole. |
| `Rfc4514RoundTrip.ParsePrintParse` | src/cryptography/x509/name.py:311-335 | For every text the parser accepts, printing the name gives a text that parses to it again if and only if no value is a single space, as long as the overrides print its types readably. |
| `Rfc4514RoundTrip.DefaultParsePrintParse` | src/cryptography/x509/name.py:311-335 | Without overrides this holds of every text the parser accepts, with no further condition. |
| `BigEndian.FromToBytes` | src/cryptography/hazmat/primitives/keywrap.py:29-32 | A number that fits the width is read back from its big-endian bytes. |
| `KeyWrap.WrapCore` | src/cryptography/hazmat/primitives/keywrap.py:15-36 | The nested in-place loops, on one encryption context used again and again, leave the state after six rounds and return it joined; `finalize` has nothing left. |
| `KeyWrap.UnwrapCore` | src/cryptography/hazmat/primitives/keywrap.py:58-78 | On whole halves the downward loops leave the state with all six rounds undone; with a short last piece of 1 to 7 bytes `finalize` raises, whatever the bytes are. |
| `KeyWrap.EcbIsLawful` | src/cryptography/hazmat/primitives/keywrap.py:21-28 | ECB over any block permutation is a streaming mode whose two directions undo each other. |
| `KeyWrap.OneBlock` | src/cryptography/hazmat/primitives/keywrap.py:25-28 | A context that has been given whole blocks maps the next block by itself, so it is safe to use again. |
| `KeyWrapShift.XorStepValue` | src/cryptography/hazmat/primitives/keywrap.py:29-31 | For every step number t under 2^64 the half combined with it is, as a number, the exclusive or of the two numbers. |
| `Bits.XorBytesValue` | src/cryptography/hazmat/primitives/keywrap.py:29-31 | Exclusive or byte by byte is exclusive or of the big-endian numbers, binary digit by binary digit. |
| `KeyWrapShift.ShiftIsIndex` | src/cryptography/hazmat/primitives/keywrap.py:15-36 | After any number of steps the indexing loops hold the registers of the shifting method of section 2.2.1 of RFC 3394, turned to the next one to be used. |
| `KeyWrap.UnwrapUndoesWrap` | src/cryptography/hazmat/primitives/keywrap.py:58-78 | For any block permutation and any number of steps, unwrapping the steps restores the state. |
| `KeyWrap.WrapUndoesUnwrap` | src/cryptography/hazmat/primitives/keywrap.py:15-36 | And the other way round. |
| `KeyWrap.AesKeyWrap` | src/cryptography/hazmat/primitives/keywrap.py:39-55 | Wraps any key, refusing bad key-encryption keys and lengths under 16 or not divisible by 8. |
| `KeyWrap.AesKeyUnwrap` | src/cryptography/hazmat/primitives/keywrap.py:152-173 | Unwraps any byte string; length errors come first, then the key, then the integrity check. |
| `KeyWrapShift.KeyWrapIsRfc3394` | src/cryptography/hazmat/primitives/keywrap.py:39-55 | Wrapping is the 6n steps of the shifting method from A6A6A6A6A6A6A6A6, with the key lengths written out. |
| `KeyWrapShift.KeyUnwrapErrors` | src/cryptography/hazmat/primitives/keywrap.py:157-164 | Which lengths of the wrapped key and of the key-encryption key give which error. |
| `KeyWrap.KeyWrapIsBijection` | src/cryptography/hazmat/primitives/keywrap.py:39-173 | For all byte strings, wrapping k gives w if and only if unwrapping w gives k. |
| `KeyWrap.AesKeyWrapWithPadding` | src/cryptography/hazmat/primitives/keywrap.py:81-103 | Both the one-block and the multi-block branch, and the overflow of the 32-bit length, as specified. |
| `KeyWrap.AesKeyUnwrapWithPadding` | src/cryptography/hazmat/primitives/keywrap.py:106-149 | Both branches, the three integrity checks and every error, for wrapped keys of any length. |
| `KeyWrap.RecoverKeyMeaning` | src/cryptography/hazmat/primitives/keywrap.py:132-149 | The checks accept exactly the zero-padded form of a non-empty key whose length the indicator gives. |
| `KeyWrap.PaddedWrapIsBijection` | src/cryptography/hazmat/primitives/keywrap.py:81-149 | For all byte strings, unwrapping w gives k if and only if k is not empty and wrapping k gives w, across both branches. |
| `KeyWrap.EmptyKeyIsLost` | src/cryptography/hazmat/primitives/keywrap.py:81-103 | The empty key is wrapped to its bare initial value, which unwrapping refuses. |
| `KeyWrapShift.EmptyKeyInClear` | src/cryptography/hazmat/primitives/keywrap.py:81-103 | That value is A65959A600000000. |
| `KeyWrapShift.ShortKeyIsOneBlock` | src/cryptography/hazmat/primitives/keywrap.py:95-100 | A key of 1 to 8 bytes is one encrypted block: A65959A6, the length in four bytes, the key, zeros. |
| `KeyWrapShift.LongKeyIsShifted` | src/cryptography/hazmat/primitives/keywrap.py:89-103 | A longer key is filled up with fewer than eight zeros and wrapped by the shifting method from A65959A6 and the length in 32 bits. |
| `KeyWrapShift.PaddedErrors` | src/cryptography/hazmat/primitives/keywrap.py:86-115 | Exactly which inputs the padded forms refuse before they look at a block, and how. |
| `Pkcs12Kdf.AddBlockInPlace` | src/rust/cryptography-crypto/src/pkcs12.rs:87-101 | The 16-bit carry loop replaces one block by (block + B + 1) mod 256^v, touches nothing else, and its sum never overflows. |
| `Pkcs12Kdf.CarryStep` | src/rust/cryptography-crypto/src/pkcs12.rs:90-100 | Each byte step keeps: low bytes plus carry weight equal the sum of the low bytes plus one, with the sum under 0x200. |
| `Pkcs12Kdf.AddToBlocksInPlace` | src/rust/cryptography-crypto/src/pkcs12.rs:87-102 | One pass does this to every block of the key. |
| `Pkcs12Kdf.EveryBlockAdded` | src/rust/cryptography-crypto/src/pkcs12.rs:80-102 | Wherever a block stands, its number becomes (block + B + 1) mod 256^v and its neighbours are treated independently. |
| `Pkcs12Kdf.FillInitialKey` | src/rust/cryptography-crypto/src/pkcs12.rs:20-51 | The two fill loops give salt and UTF-16 password repeated to whole blocks. |
| `PasswordText.PasswordDecodes` | src/rust/cryptography-crypto/src/pkcs12.rs:17-22 | For every password, surrogate pairs included, its bytes read pair by pair as UTF-16BE are the password followed by a NUL. |
| `PasswordText.AsciiPassword` | src/rust/cryptography-crypto/src/pkcs12.rs:17-22 | For an ASCII password byte 2i is zero and byte 2i + 1 is the i-th character, and two zero bytes end it. |
| `PasswordText.RoundUpMeaning` | src/rust/cryptography-crypto/src/pkcs12.rs:42-43 | The fill lengths are the least multiples of the block length that suffice. |
| `Pkcs12Kdf.Hashed` | src/rust/cryptography-crypto/src/pkcs12.rs:59-68 | The digest loop is the hash iterated max(1, rounds) times. |
| `Pkcs12Kdf.FillResult` | src/rust/cryptography-crypto/src/pkcs12.rs:53-103 | The output loop fills the buffer with the first bytes of A_1, A_2, ... of Appendix B.2 of RFC 7292. |
| `Pkcs12Kdf.Kdf` | src/rust/cryptography-crypto/src/pkcs12.rs:9-106 | The whole function returns the RFC's key for every password, salt, id, round count and length. |
| `Pkcs12Kdf.OutputIsPrefix` | src/rust/cryptography-crypto/src/pkcs12.rs:53-103 | The output is a prefix of A_1 || ... || A_c for every c with enough bytes. |
| `Pkcs12Kdf.ShorterKeyIsPrefix` | src/rust/cryptography-crypto/src/pkcs12.rs:9-106 | A shorter key is a prefix of a longer one. |
| `OpensslKdf.Kdf` | src/rust/cryptography-crypto/src/pbkdf1.rs:7-31 | The loop returns exactly `length` bytes, the prefix of any long enough run of chained digests. |
| `OpensslKdf.BackSlice` | src/rust/cryptography-crypto/src/pbkdf1.rs:18-20 | Whenever the key so far is not empty it ends in a whole digest, so the slice cannot underflow. |
| `OpensslKdf.SamePrefix` | src/rust/cryptography-crypto/src/pbkdf1.rs:15-28 | Any two sufficient numbers of digests determine the same key. |
| `OpensslKdf.ShorterKeyIsPrefix` | src/rust/cryptography-crypto/src/pbkdf1.rs:7-31 | A shorter key is a prefix of a longer one. |
| `Padding.ConstantTimeLtMeaning` | src/rust/src/padding.rs:11-21 | The branch-free comparison is all ones for less-than and zero otherwise, for all bytes. |
| `Padding.CheckPkcs7Padding` | src/rust/src/padding.rs:23-43 | The masked loop accepts a block exactly if its last p bytes, 1 <= p <= length, all equal p. |
| `Padding.CheckAnsiX923Padding` | src/rust/src/padding.rs:45-66 | It accepts exactly if the last byte p is in range and the p - 1 bytes before it are zero. |
| `Padding.WellPaddedMeaning` | src/rust/src/padding.rs:23-66 | Being well padded with p bytes is ending in what the padder writes for p. |
| `Padding.PaddingContext.Update` | src/rust/src/padding.rs:84-95 | The bytes are counted and the object they came in is handed back, `None` for the library's own bytes; after finalize they are refused. |
| `Padding.PaddingContext.Finalize` | src/rust/src/padding.rs:97-160 | One to block-size bytes complete the block, once. |
| `Padding.UnpaddingContext.Update` | src/rust/src/padding.rs:174-189 | All whole blocks but the last are let go and the rest kept. |
| `Padding.UnpaddingContext.Finalize` | src/rust/src/padding.rs:191-275 | The last block is stripped exactly if it is one whole well-padded block; the context is used up either way. |
| `Padding.TwoUpdates` | src/rust/src/padding.rs:174-189 | Two updates give together what one with both chunks gives. |
| `Padding.ChunkingIsIrrelevant` | src/rust/src/padding.rs:174-189 | For every way of cutting the input, the joined output and the buffer are those of one update. |
| `Padding.UnpadIsExact` | src/rust/src/padding.rs:74-275 | For every chunking, unpadding succeeds with d if and only if the input is d followed by the padder's output for d. |
| `Ciphers.NewOutputInTwo` | src/rust/src/backend/ciphers.rs:175-197 | For a streaming mode, the output for two chunks in turn is the output for both at once. |
| `Ciphers.CipherContext.UpdateInto` | src/rust/src/backend/ciphers.rs:166-200 | It fails exactly if the buffer is under data + block size - 1 bytes, then changing nothing; else it writes the output contiguously, however the data splits into 2^29-byte chunks, and nothing beyond it. |
| `Ciphers.CipherContext.Update` | src/rust/src/backend/ciphers.rs:156-164 | Its own buffer always suffices and the output is returned. |
| `Ciphers.CipherContext.Finalize` | src/rust/src/backend/ciphers.rs:207-228 | Input that is not whole blocks is an error, a decryption whose tag does not fit is an invalid tag, and else it succeeds with nothing more. |
| `SymmetricHelpers.TwoUpdatesEncrypt` | src/rust/src/pkcs12.rs:98-110 | The outputs of the data and of the padding, one after the other, are the encryption of the padded data. |
| `SymmetricHelpers.SymmetricEncrypt` | src/rust/src/pkcs12.rs:85-111 | The two writes into one buffer give that encryption; no buffer guard fails, and neither does the assertion on the padder's object or the one on the final block. |
| `SymmetricHelpers.SymmetricDecrypt` | src/rust/src/pkcs7.rs:424-456 | Buffer and assertion never fail; input that is not whole blocks and bad padding are the only errors. |
| `SymmetricHelpers.DecryptIsExact` | src/rust/src/pkcs7.rs:424-456 | Decryption gives d if and only if the ciphertext is the encryption of d, so it inverts `symmetric_encrypt` for every d. |
| `AeadContexts.AeadContext.constructor` | src/rust/src/backend/ciphers.rs:523-579 | A context starts live, untagged and with the full limits of GCM, 2^36 - 32 bytes of data and 2^61 of associated data. |
| `AeadContexts.AeadContext.UpdateData` | src/rust/src/backend/ciphers.rs:301-316 | One step of the state machine: marked updated, counted, then handed on only if live. |
| `AeadContexts.AeadContext.UpdateDataInto` | src/rust/src/backend/ciphers.rs:318-334 | The same into a caller's buffer; the count goes down even if the buffer is then too small. |
| `AeadContexts.AeadContext.AuthenticateAdditionalData` | src/rust/src/backend/ciphers.rs:336-352 | Refused when finalized, after an update attempt, or over the limit, in that order and without a change. |
| `AeadContexts.AeadContext.FinalizeContext` | src/rust/src/backend/ciphers.rs:354-370 | The tag appears and the context goes away together, and only on success; a failure without OpenSSL errors is an invalid tag. |
| `AeadContexts.AeadContext.FinalizeContextWithTag` | src/rust/src/backend/ciphers.rs:469-515 | A late tag is taken only once and only at an allowed length. |
| `AeadContexts.TagMustFit` | src/rust/src/backend/ciphers.rs:207-228 | A decryption, its tag given early or late, ends in an invalid tag if the tag does not fit and in another error if OpenSSL leaves one, and stays live. |
| `AeadContexts.StepIsSafe` | src/rust/src/backend/ciphers.rs:299-515 | Every call, however OpenSSL answers, keeps: data given plus bytes remaining within the limit, AAD given plus remaining equal to it, AAD before data, tag exactly if an encryption has ended. |
| `AeadContexts.FromCreation` | src/rust/src/backend/ciphers.rs:299-579 | This holds after every sequence of calls from creation. |
| `AeadContexts.FinalizedStays` | src/rust/src/backend/ciphers.rs:262-265 | After a successful finalize no sequence of calls hands anything to OpenSSL or changes the tag. |
| `AeadContexts.NoAadAfterUpdate` | src/rust/src/backend/ciphers.rs:336-343 | Once an update was attempted, even a refused one, no AAD is ever accepted again. |
| `Fernet.NewFernet` | src/cryptography/fernet.py:29-46 | A key is accepted exactly if it is ASCII and decodes to 32 bytes, which are the signing key followed by the encryption key. |
| `Fernet.EncryptFromParts` | src/cryptography/fernet.py:59-82 | The stateful padder, cipher and HMAC produce the token payload, for every time that fits 64 bits. |
| `Fernet.GetUnverifiedTokenData` | src/cryptography/fernet.py:109-125 | A token that is not ASCII is an error of its own; undecodable, empty, short or wrong-version tokens are invalid; otherwise bytes 1 to 8 are the time. |
| `Fernet.ErrorKinds` | src/cryptography/fernet.py:109-168 | Decryption fails with that error exactly on tokens that are not ASCII, and otherwise only as invalid. |
| `Fernet.DecryptData` | src/cryptography/fernet.py:135-168 | Time, then signature, then whole blocks, then padding; every failure is an invalid token and none escapes. |
| `Fernet.SignedIsLong` | src/cryptography/fernet.py:127-151 | A payload with a right signature has at least 32 bytes and a full 16-byte IV, so the cipher never sees a short one. |
| `Fernet.ExtractTimestamp` | src/cryptography/fernet.py:102-106 | The time is returned only if the signature is right. |
| `Fernet.OpensExactly` | src/cryptography/fernet.py:127-168 | A payload opens with d if and only if it is what the same key makes for d, its own time and some IV. |
| `Fernet.DecryptsExactly` | src/cryptography/fernet.py:84-168 | A token decrypts to d if and only if it is a token of this key for d at a time t with t + ttl >= now and now + 60 >= t. |
| `Fernet.EncryptThenDecrypt` | src/cryptography/fernet.py:59-168 | A fresh token decrypts to its data exactly within those bounds (always without a ttl) and is otherwise invalid. |
| `Fernet.TokensAreUnambiguous` | src/cryptography/fernet.py:109-168 | Under one key a token stands for one plaintext and one time. |
| `Fernet.Rotate` | src/cryptography/fernet.py:186-198 | The loop with `break` takes the first key that opens the token and encrypts under the first key at the old time. |
| `Fernet.FirstOpenedMeaning` | src/cryptography/fernet.py:188-195 | Some key opens the payload exactly if the loop finds one, and the one found is the first. |
| `Fernet.RotateKeepsDataAndTime` | src/cryptography/fernet.py:186-198 | Rotation succeeds exactly on tokens of one of the keys, and yields a token of the first key for the same plaintext and time. |
| `Fernet.DecryptAtTime` | src/cryptography/fernet.py:208-216 | The result is that of the first key that accepts the token in time; it is invalid exactly if none does and the token is ASCII (or there are no keys), since the other error leaves the loop. |
| `SmimeText.SmimeCanonicalize` | src/rust/src/pkcs7.rs:675-707 | Both buffers hold the text with every bare LF made CR LF and differ only by the header; the input is lent back exactly if not in text mode and without a bare LF. |
| `SmimeText.CanonicalSnoc` | src/rust/src/pkcs7.rs:686-698 | The left-to-right map extends by one byte at a time, deciding by the byte before it. |
| `SmimeText.NextByteOfText` | src/rust/src/pkcs7.rs:686-698 | A byte 10 gets a byte 13 before it exactly if none stands there; every other byte is copied. |
| `SmimeText.HeaderText` | src/rust/src/pkcs7.rs:679-684 | The header is `Content-Type: text/plain`, CR LF, CR LF, character by character. |
| `SmimeText.CanonicalIsIdempotent` | src/rust/src/pkcs7.rs:675-707 | Canonicalising twice is canonicalising once. |
| `SmimeText.CanonicalMeansNoBareLf` | src/rust/src/pkcs7.rs:675-707 | Text is unchanged exactly if it has no bare LF, and the result never has one. |
| `SmimeText.ContentIsKept` | src/rust/src/pkcs7.rs:675-707 | Input and output are equal once CR LF is read as LF, so nothing but line endings changes. |

## Left out

- The `policy` module, DER encoding and decoding, OpenSSL, pyo3 and cffi: parameters with stated laws, or values already decoded.
- KeyWrap.WrapCore: combines the step number modulo 2^64, which no Python byte string is long enough to reach.
- Padding.CheckPkcs7Padding: takes blocks of 1 to 255 bytes; a block size of 0 bits, which the Python wrapper lets through, is not modelled.
- Rfc4514RoundTrip.RoundTrip: takes names whose printed attribute types the parser can read back (`Readable`), because overrides are free text on both sides; byte-string values are in the if-and-only-if as not surviving.
- Rfc4514Parser.NameParser.ReadRe: the digits are those of Unicode 14.0, where Python's depend on its version, and strings are Unicode scalar values, where Python allows lone surrogates.
- The OID constructor, the UTF-8 codec and the caller's name overrides are parameters of the parser.
- DomainNames.InnerNameMatchIsExact: lengths count characters; valid names are ASCII, so this is the code's byte count.
- IP addresses are bit strings, so that 32-bit and 128-bit masks are one definition; `from_str` is not modelled.
- ChainGuarantees.VerifyIsComplete: the run must stay within the budget; `FatalIsBudget` says what happens otherwise, and `SmallInputsAreDecided` gives a bound read off the inputs.
- AeadContexts.AeadContext.UpdateDataInto: what OpenSSL is handed is recorded as a number of bytes, and an update that fails inside OpenSSL counts as all its bytes.
- The encryption and decryption contexts, and the PKCS#7 and ANSI X9.23 contexts, are one class each with a direction or scheme parameter.
- `reset_nonce`, `_advance`, `_advance_aad`, XTS, and the one-shot AEAD classes: outside the normal call protocol or configuration around foreign code.
- Fernet.GetUnverifiedTokenData: tokens are `str`; a `bytes` token is decoded the same way, except that bytes beyond ASCII are dropped.
- Fernet.EncryptFromParts: the data is bytes already, and the IV is the 16 bytes `os.urandom(16)` gives; `decrypt`'s clock is a parameter.
- `MultiFernet` with an empty list of keys, refused by its constructor, and its `extract_timestamp`, which is the same loop as `decrypt_at_time`.
- `smime_enveloped` and the rest of PKCS#7 and PKCS#12 serialisation: ASN.1 writing.
- Extension value classes, builders, OID tables, equality and hashing of names: single-branch checks and constants.
- Timing behaviour of the branch-free checks and the quality of randomness.
