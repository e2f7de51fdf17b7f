# Verified model of mailauthprobe

mailauthprobe checks how a mail domain is protected by SPF, DKIM and DMARC, and evaluates
those checks on single messages. This project models the parts of it that decide something,
in the shape the program gives them, and proves what they are for.

- **SPF** (`Spf`, `SpfEval`, `SpfNetworks`, `SpfLaws`, `SpfBounds`, `SpfReference`, `SpfLimits`, `SpfEnough`). The class
  `SpfEval.Evaluator` is the evaluator of `check_host()`: it counts lookups and void lookups
  across includes and redirects, pushes and pops its stack of domains and caches the `p` macro.
  Every method is proved against a function on states. Around that function stand laws that name
  the result for each mechanism, include, redirect and explanation, the limits of
  section 4.6.4 of RFC 7208, a limit-free reference, the loop check and the number of resolver
  calls. Records are parsed terms; the resolver is a total function of the query.
- **SPF static analysis** (`SpfAnalyze`, `SpfSoundness`, `SpfExact`, `SpfVMacro`). The analyzer that
  counts the DNS-querying terms of a policy without a client, the theorem that no run counts more,
  and the theorem that a client whom nothing matches counts as many.
- **SPF syntax** (`MacroParse`, `Macro`, `MacroLaws`, `Names`, `ReverseMacro`, `DualCidr`, `CidrDomain`). Parsing and
  expanding macro strings, reverse names and the dual-cidr-length of the `a` and `mx` mechanisms.
- **DKIM** (`Bytes`, `BodyCanon`, `BodyAlgebra`, `HeaderCanon`, `CanonLaws`, `SelectHeaders`, `Signing`,
  `SignVerify`, `SignatureReading`, `ReadBack`, `Agreement`, `Disagreement`). The streaming
  canonicalization against its declarative form, the algebra of the canonical forms, header
  selection, the removal of the `b=` value, the tags that the verifier reads from a signature
  field, and the agreement of the signer and the verifier on every byte hashed. Hash, signature
  and base64 are given functions.
- **Messages** (`HeaderSection`, `HeaderLaws`, `HeaderPrint`, `MimeWalk`). The header parser that keeps the exact
  bytes of each field, and the MIME walker with its three bounds. The multipart reader may
  answer anything.
- **Query cache and budget** (`QueryCache`). A system of steps of any number of callers.
- **DMARC** (`DmarcVerdict`, `DmarcRecord`, `DmarcPrint`). The verdict on a message when some inputs are
  unknown, and the tag loop of the record parser.

## Where the code and what is said about it differ

- The analyzer treats a name as independent of the message unless it uses `s`, `l`, `o`, `p`, `i`
  or `h` (`internal/spf/analyze.go:282`). The value of `%{v}` depends on the address family of the
  client, so the static count is not a bound for IPv4 clients of records that follow a `%{v}`
  name. `SpfVMacro.DivergingNamesBreakTheBound` gives such a policy for every `%{v}` that takes the
  client to another valid name than the analyzer, `SpfVMacro.VMacroBreaksTheBound` one of them.
  `SpfSoundness.RunWithinStaticCount` asks that the client is sent to the names that were followed,
  `SpfSoundness.StaticCountBoundsEveryRun` for names without `%{v}`, or for an IPv6 client.
- The nesting limit of `check_host()` decides nothing while it is at least the lookup limit, as it
  is by default: `SpfBounds.DepthBoundIsDead`.
- The canonical body drops one CR at the end of an unterminated last line, which the RFC does not
  speak of; the declarative form has the same rule.
- "More than MaxMIMEParts" MIME parts can be reported although there are no more
  (`internal/mailparser/mime.go:136-141`): what counts against the limit are the parts, and one more
  if the reader is still asked on behind the last of them, because the count is looked at first.
  `MimeWalk.ParseMime` says exactly when a walk is complete, and `MimeWalk.ExactCountIsReported`
  gives a message of two parts that is out of a limit of two, and one, ending in a broken part,
  that is not.
- The continuation lines a message begins with belong to no field of it, and to the signature field
  once it is signed (`HeaderLaws.PrependedField`). Signer and verifier still hash the same header
  bytes exactly when these lines have no semicolon (and h= does not oversign the field), and the
  signature is read back exactly when they are white space up to one:
  `Agreement.SignerAndVerifierAgree`, `SignVerify.SignatureReadBack`.
  `Disagreement.SemicolonLineIsNotSigned` gives messages that are not hashed alike.
- The signer writes the names and the extra tags it is given as they are. A name with a colon in it
  is signed as one name and read as two (`Disagreement.ColonNameIsNotSigned`), and an extra `l=` on a
  signature of the whole body is obeyed by the verifier (`Disagreement.ExtraLengthIsObeyed`).
  `Agreement.SignedFieldReadBack` says exactly when names and limit are read back.
- A domain-spec with a slash after its last macro is accepted with an ip4-cidr-length and refused
  without one (`internal/spf/record.go:382-401`). `DualCidr.ParseIsExact` gives the exact condition,
  `CidrDomain.PrintedIsParsedOrRefused` says that nothing is read differently, and
  `CidrDomain.SlashedNeedsLength` gives `:a/b.c`.

## Model

| member | source | states |
|---|---|---|
| SpfSoundness.RunWithinStaticCount | internal/spf/analyze.go:184-270 | under all limits, a run counts at most as many DNS-querying terms as the analysis of its domain reports, or the total has reached the node bound, provided no name was left unfollowed as dynamic and the client is sent to the names that were followed |
| SpfSoundness.StaticCountBoundsEveryRun | internal/spf/analyze.go:184-270 | hence for every client address, sender and HELO, a run counts at most as many terms as the analysis reports, cut-off trees included, when no name was left unfollowed, followed names do not use `%{v}` (or the client has IPv6) and the lookup limit is below the node bound |
| SpfSoundness.DescendCounted | internal/spf/analyze.go:384-431 | evaluating the target of an include or redirect adds at most the total of the node the analyzer made for it, also where one of the two stops at a loop, a depth limit or an invalid name and the other goes on |
| SpfSoundness.FollowedAlike | internal/spf/analyze.go:384-431 | a target that the evaluator goes on to evaluate is one that the analyzer fetches and walks, although the analyzer knows no client and lower-cases its names |
| SpfSoundness.WalkPays | internal/spf/analyze.go:184-270 | every node fetched is paid for by a counted term, so a tree cut off by the node bound already has a total of at least the bound |
| SpfExact.StaticCountIsAttained | internal/spf/analyze.go:184-270 | the bound is attained: a client whom no mechanism before "all" matches or fails, whom no included record passes and who is sent to the names that were followed counts exactly the total of the analysis, whenever the limit allows for it, and its result is the qualifier of the first "all" down the redirects |
| SpfExact.DescendExact | internal/spf/analyze.go:384-431 | evaluating the target of an include or redirect adds exactly the total of the analyzer's node and gives the result read off that node |
| SpfExact.WalkReported | internal/spf/analyze.go:184-270 | every node of a tree without a record is marked as failed or dynamic and counts nothing, every other one counts its own terms and the totals of its children |
| SpfSoundness.FollowedLetters | internal/spf/analyze.go:273-291 | the names that are followed are exactly those whose macros are all `d` or `v` |
| SpfVMacro.DivergingNamesBreakTheBound | internal/spf/analyze.go:282-291 | for every domain-spec without dynamic letters that takes a client to a valid name other than the one the analyzer follows, some case-insensitive resolver has a policy without a dynamic node for which that client's run counts two terms and the analysis one; only `%{v}` and only IPv4 clients can have that effect |
| SpfVMacro.VMacroBreaksTheBound | internal/spf/analyze.go:282-291 | `v=spf1 include:%{v}.t` is such a policy for an IPv4 client |
| SpfVMacro.FamilySpecIsParsed | internal/spf/record.go:350-364 | the domain-spec of that policy is what the record parser makes of its text |
| SpfAnalyze.AnalysisState.WalkRecord | internal/spf/analyze.go:184-270 | the loop over the terms computes the node and the node count of the recursive definition that the bound is proved about |
| SpfAnalyze.AnalysisState.FollowTerm | internal/spf/analyze.go:384-431 | dynamic names, cycles, the depth and node bounds, invalid names and missing records each end in the leaf the definition gives them, and only fetched targets are counted as nodes |
| SpfAnalyze.AnalyzeDomain | internal/spf/analyze.go:69-131 | the tree and the total of a domain under the limits in force |
| SpfEval.Evaluator.CheckHost | internal/spf/eval.go:182-223 | with the stack of domains above it, the method ends with the outcome and the counters of the definition and leaves the stack as it was; the stack never holds a domain twice |
| SpfEval.Evaluator.CheckRecord | internal/spf/eval.go:204-291 | the loop over the terms: order of evaluation, first match wins, redirect only when nothing matched, explanation only for a failing result at the top |
| SpfEval.Evaluator.MatchTerm | internal/spf/eval.go:313-344 | a counted term over the lookup limit ends the run before it is looked up, whatever its mechanism |
| SpfEval.Evaluator.MatchPlain | internal/spf/eval.go:345-423 | each mechanism asks for what section 5 of RFC 7208 says, counts void answers, and turns temporary failures into temperror and too many exchangers into permerror |
| SpfEval.Evaluator.MatchMX | internal/spf/eval.go:358-381 | exchangers are tried in order until one matches or fails temporarily, and exactly those are queried |
| SpfEval.Evaluator.CachedP | internal/spf/eval.go:463-481 | the `p` macro of a domain has the same value however often it is asked for, and costs resolver calls the first time only |
| SpfEval.Evaluator.ValidatedNames | internal/spf/expand.go:193-212 | the names kept are those whose own addresses include the client, among the first MaxPTRNames, and that many calls are made |
| SpfEval.Evaluator.ExpandMacros | internal/spf/expand.go:32-49 | expanding a macro string resolves the `p` macro exactly when it is reached before the length bound |
| SpfEval.Evaluator.FetchRecord | internal/spf/eval.go:158-180 | one call, and exactly one record among the texts, or the result for none, several or a failure |
| SpfEval.Evaluator.Explanation | internal/spf/eval.go:483-502 | the text published under exp=, cut to its bound, or nothing when anything about it fails |
| SpfEval.CheckHost | internal/spf/eval.go:113-142 | a whole run from a normalized request: its result, its counters and its flags |
| SpfLaws.FirstNetworkDecides | internal/spf/eval.go:224-291 | for every record the first of its leading networks that the client is in decides, whatever stands behind it: `+` gives Pass, `-` Fail, `~` SoftFail and `?` Neutral; without any, and without a redirect, the result is Neutral; nothing is counted |
| SpfLaws.NetworkThenAll | internal/spf/eval.go:313-344 | for `ip4:N/n` and `all`, the first qualifier decides exactly when the client's 32-bit number is in [N, N + 2^(32-n)) |
| SpfNetworks.PrefixIsBlock | internal/spf/eval.go:440-461 | the first bits of two addresses agree exactly when their numbers, divided by the size of the block, do |
| SpfNetworks.UnmapIsExact | internal/spf/eval.go:440-461 | an IPv4-mapped IPv6 address is the IPv4 address in its last four octets, and every other address is itself |
| SpfLaws.AddressThenAll | internal/spf/eval.go:344-356 | for `a` and `all`: the first qualifier if some address of the client's family is in its block of the cidr-length of that family, or is the client without one; the second otherwise; void and failing lookups, and limits of zero, by their results |
| SpfLaws.ExchangerThenAll | internal/spf/eval.go:358-390 | for `mx` and `all`: the first exchanger that has the client, or that fails, decides; too many exchangers are a permanent error |
| SpfLaws.ExistsThenAll | internal/spf/eval.go:408-421 | for `exists` and `all`: any A record is a match, whatever the client |
| SpfLaws.PointerThenAll | internal/spf/eval.go:391-407 | for `ptr` and `all`: a match needs one of the names considered that is the target or below it and has the client's address; a failing lookup is no match |
| SpfLaws.PMacroIsExact | internal/spf/eval.go:463-481 | the `p` macro is the domain, or the first validated name below it, or the first validated name, or unknown |
| SpfLaws.IncludeThenAll | internal/spf/eval.go:318-343 | the table of section 5.2 of RFC 7208 for every result of the included record |
| SpfLaws.RedirectDecides | internal/spf/eval.go:260-284 | behind networks without the client a redirect gives the result of its target, and a permanent error for a target without policy |
| SpfLaws.WithoutRecord | internal/spf/eval.go:158-223 | the results for an invalid name, no record, several, an unreadable one and failing lookups |
| SpfLaws.NormalizedDomainIs | internal/spf/eval.go:113-142 | the run is about that domain in small letters and without a final dot |
| SpfLaws.RequestDomainIsExact | internal/spf/eval.go:113-142 | the domain asked about is the one given, that of the sender, or that of HELO |
| SpfLaws.ExplanationsAreForFail | internal/spf/eval.go:236-258 | in every run an explanation comes with Fail only, is at most 512 characters long and is never that of an included or redirected record |
| SpfLaws.ExplanationIsExact | internal/spf/eval.go:483-502 | a record that fails everybody gives the first 512 characters of the one readable text under its exp= name, or nothing |
| SpfBounds.RunKeepsLimits | internal/spf/eval.go:293-309 | every run ends with each counter at most one past its limit; the limit flag and the loop flag are each raised by exactly one way of ending, both mean permerror, and without the limit flag no counter is above its limit |
| SpfBounds.DepthBoundIsDead | internal/spf/eval.go:190-202 | no run ends at the nesting limit when it is at least the lookup limit |
| SpfBounds.CheckKeeps | internal/spf/eval.go:182-291 | from any state in which the depth is at most the number of counted terms, evaluation keeps that, never forgets a resolved `p` macro and pays for every resolver call with a counted term, a visited domain or the record itself |
| SpfBounds.RunQueries | internal/spf/eval.go:224-300 | one run makes at most 2 + L(1 + max(M, P)) + (1 + L)(1 + P) resolver calls for L lookups, M exchangers and P names |
| SpfBounds.DefaultRunQueries | internal/spf/eval.go:31-31 | with the default limits, which all zeros stand for, a run makes at most 233 calls and counts at most eleven terms and three void lookups, the last of each being the one over the limit |
| SpfReference.LimitsOnlyAddPermerror | internal/spf/eval.go:182-423 | a run that is not cut short by a limit or the loop check gives the one result of the limit-free evaluation, and a run that is cut short gives permerror |
| SpfReference.RefUnique | internal/spf/eval.go:182-423 | the limit-free evaluation has at most one result |
| SpfReference.UncutIsRef | internal/spf/eval.go:182-423 | at every level of nesting, and from every state, an evaluation that is not cut short gives the limit-free result |
| SpfLimits.LargerLimitsSameRun | internal/spf/eval.go:293-309 | a run that no limit cuts short is the same run, with the same result, counters, calls and explanation, under any larger lookup, void, exchanger and nesting limits |
| SpfLimits.LoopDiverges | internal/spf/eval.go:190-203 | when a loop is reported, the limit-free evaluation has no result: the loop is real |
| SpfLimits.LoopCheckChangesOnlyReason | internal/spf/eval.go:190-203 | when a loop is reported, the same evaluator without the loop check also ends in permerror, through one of the limits |
| SpfLimits.FoldRef | internal/spf/eval.go:190-203 | domains that differ in letter case have the same limit-free result, which is why the loop check may compare without case |
| SpfEnough.EnoughLimitsReachTheResult | internal/spf/eval.go:293-309 | every limit-free result is the result of the program under limits that afford the lookups, void lookups, exchangers and nesting it needs |
| ReverseMacro.ReverseSpecIsReverseName | internal/dnsresolver/names.go:50-72 | for every IPv4 and IPv6 address, mapped ones included, expanding `%{ir}.%{v}.arpa` gives the name the resolver asks for, less its final dot |
| Names.ReverseName | internal/dnsresolver/names.go:50-72 | octets or nibbles from last to first under in-addr.arpa or ip6.arpa, an IPv4-mapped address as IPv4 |
| Names.Itoa | internal/dnsresolver/names.go:74-86 | the digits written backwards into the buffer are the decimal numeral |
| Names.FoldValidDomain | internal/dnsresolver/names.go:30-47 | whether a name is valid does not depend on letter case |
| SpfLaws.ValidNames | internal/dnsresolver/names.go:30-47 | a name is valid exactly when its labels have 1 to 63 visible characters and it has at most 253, a final dot aside |
| Macro.SplitAny | internal/spf/expand.go:141-152 | the parts between delimiters, empty parts included |
| Macro.Truncate | internal/spf/expand.go:169-181 | labels are dropped from the left until the name fits |
| Macro.Escape | internal/spf/expand.go:154-165 | every character that is not unreserved is percent-encoded, the others are kept |
| Macro.ExpansionWithoutP | internal/spf/expand.go:32-89 | expanding a macro string that does not reach the `p` macro before the length bound gives the same text for every value of it, and reaches it for none |
| MacroLaws.TransformIsExact | internal/spf/expand.go:119-139 | a value made of parts and any of the delimiters, with digits n and reversal: the n rightmost parts in their order, or for a reversed value the n leftmost from right to left, joined by dots |
| MacroLaws.TransformWithEmpties | internal/spf/expand.go:119-139 | the same for values with empty parts: these are dropped unless the value begins or ends with a delimiter |
| MacroLaws.Examples | internal/spf/expand.go:119-139 | `email.example.com` and `strong-bad` under the transformers of section 7.4 of RFC 7208 |
| MacroLaws.SenderValues | internal/spf/expand.go:51-103 | s, l and o are the sender, its local part or postmaster, and its domain; the other letters but i and v are the values given, and r is unknown without one |
| MacroLaws.EscapeRoundTrip | internal/spf/expand.go:154-165 | reading the percent pairs gives back every string of octets, and nothing but unreserved characters and pairs is written |
| MacroLaws.ExpansionIsExact | internal/spf/expand.go:32-49 | an expansion is what its tokens contribute one after the other, if that is at most 4096 characters, and nothing otherwise |
| MacroLaws.DropLabelsIsLongest | internal/spf/expand.go:169-181 | what is left of a long name is the longest of its ends that begins with a label and has at most 253 characters |
| MacroParse.ParseMacroString | internal/spf/macro.go:33-81 | the loop with its pending literal gives the tokens of the text, or refuses it at the first thing that is not a macro string |
| MacroParse.ParseMacroExpand | internal/spf/macro.go:83-128 | letter, digits read up to their cap, reversal and delimiters of one macro, or a refusal |
| MacroParse.ParseIsOntoCanonical | internal/spf/macro.go:33-128 | what the parser produces is exactly the canonical macro strings: nonempty printable literals, no two adjacent, allowed letters, digit counts up to 10009; and a canonical macro string printed and parsed is itself |
| MacroParse.PrintingIsNormal | internal/spf/macro.go:33-128 | parsing, printing and parsing an accepted text again gives the same tokens |
| MacroParse.DomainEndIsExact | internal/spf/macro.go:130-154 | a macro string passes as a domain-spec if and only if it ends in a macro, or in a dot and a toplabel, perhaps with a final dot, with no empty label before it |
| MacroParse.ValidTopLabel | internal/spf/macro.go:156-179 | the loop with its two flags accepts exactly the toplabels of at most 63 characters |
| MacroParse.AcceptedIsDomainSpec | internal/spf/record.go:350-364 | no accepted domain-spec uses the letters reserved for explanation texts, which is what the terms of the evaluator and of the analyzer are taken to satisfy |
| DualCidr.ParseIsExact | internal/spf/record.go:366-410 | an argument is accepted as (domain-spec, n, m) if and only if it is the printed form of that triple, the triple is valid and its domain-spec has no slash after its last macro, or only single inner ones in front of an ip4-cidr-length |
| CidrDomain.PrintedIsParsedOrRefused | internal/spf/record.go:366-410 | with the domain-specs of the record parser itself, the printed form of every valid argument is parsed back to it, or refused, exactly when it has a slash after its last macro in the wrong place; it is never read as another argument |
| CidrDomain.DotBehindSlash | internal/spf/macro.go:130-154 | in an accepted domain-spec there is a dot behind every slash that no brace follows |
| CidrDomain.SlashedNeedsLength | internal/spf/record.go:366-410 | `:a/b.c/24` is accepted and `:a/b.c` refused |
| DualCidr.LengthIs | internal/spf/record.go:412-426 | a length is accepted in exactly one spelling: the decimal numeral of a number within range |
| DualCidr.ParseCidr | internal/spf/record.go:412-426 | the digit loop accepts exactly those spellings |
| BodyCanon.WriteCanonBody | internal/dkim/canon.go:99-145 | for every limit, the bytes written are the first bytes of the declarative canonical body up to the limit, and the returned length is that of all of it |
| BodyCanon.CollapseLine | internal/dkim/canon.go:99-145 | the loop with its pending-space flag gives the line with inner white space collapsed and trailing white space gone |
| BodyCanon.BodyWriter.Write | internal/dkim/canon.go:79-97 | the sink holds the first bytes of everything written, up to the limit, and the total counts all of it |
| BodyAlgebra.CanonBodyLaws | internal/dkim/canon.go:99-145 | both body forms are idempotent, and relaxed after simple is relaxed |
| BodyAlgebra.EqualSimpleEqualRelaxed | internal/dkim/canon.go:99-145 | bodies with equal simple forms have equal relaxed forms |
| BodyAlgebra.LfKeepsCanonBody | internal/dkim/canon.go:99-145 | replacing CRLF by LF leaves the canonical body unchanged if and only if no CR directly precedes a CRLF |
| BodyAlgebra.NormalizingKeepsCanonBody | internal/dkim/verify.go:193-202 | the verifier may normalize line endings before it canonicalizes: the canonical body is the same |
| BodyAlgebra.NormalizeLineEndings | internal/dkim/canon.go:10-22 | exactly the bare line feeds become CRLF |
| HeaderCanon.CanonicalHeader | internal/dkim/canon.go:40-77 | both header forms, also for a field without colon or without terminator |
| HeaderCanon.RelaxValue | internal/dkim/canon.go:40-77 | the loop with its two flags unfolds, trims and collapses in one pass |
| HeaderCanon.CanonHeaderLaws | internal/dkim/canon.go:40-77 | both header forms are idempotent, and relaxed after simple is relaxed |
| HeaderCanon.EqualSimpleEqualRelaxedHeader | internal/dkim/canon.go:40-77 | fields with equal simple forms have equal relaxed forms |
| HeaderCanon.RelaxedIgnoresFolding | internal/dkim/canon.go:40-77 | the relaxed form of a field does not depend on how its value is folded |
| CanonLaws.CollapseIsExact | internal/dkim/canon.go:99-145 | a line of words with any white space between them collapses to the words with single spaces, one space in front if there was any, and nothing behind |
| CanonLaws.BodyIsExact | internal/dkim/canon.go:99-145 | the canonical body of lines that end in a visible one, whatever blank lines follow, is those lines in their form and nothing behind them |
| CanonLaws.BlankBodyIsExact | internal/dkim/canon.go:99-145 | a body of blank lines only is one line break under simple and nothing under relaxed |
| CanonLaws.RelaxedFieldIsExact | internal/dkim/canon.go:40-77 | a relaxed field is its name in lower case, a colon, the words of its unfolded value with single spaces and CRLF |
| CanonLaws.SimpleFieldIsExact | internal/dkim/canon.go:40-77 | a simple field whose line breaks are CRLF stays as it is, with one added if there is none at its end |
| CanonLaws.ExampleFields | internal/dkim/canon.go:40-77 | the two fields of section 3.4.5 of RFC 6376 under relaxed |
| CanonLaws.ExampleBody | internal/dkim/canon.go:99-145 | the body of that section under both forms |
| SelectHeaders.Select | internal/dkim/verify.go:269-285 | the k-th occurrence of a name in h= selects the k-th field of that name from the bottom, and nothing when there are fewer |
| SelectHeaders.FromBottomFacts | internal/dkim/verify.go:269-285 | the field selected has the name asked for and exactly k fields of that name below it; none is selected if and only if there are at most k |
| SelectHeaders.PrependingKeepsSelection | internal/dkim/verify.go:269-285 | fields put in front leave the selection unchanged if and only if no name among them is listed more often than the message had fields of it; listing a name once too often makes any added field of that name visible |
| Signing.StripSignatureValue | internal/dkim/canon.go:149-185 | the value of every b= tag is gone, the last one's line terminator stays, and every other byte is kept |
| Signing.HashedHeader | internal/dkim/verify.go:212-219 | the header bytes hashed: the selected fields in order, then the signature field without its terminator |
| Signing.HashedWithoutLastBreak | internal/dkim/verify.go:212-219 | the header bytes and one CRLF are the canonical forms of the selected fields and of the signature field, one after the other: all of that is hashed but the last line break |
| Signing.HashedBody | internal/dkim/verify.go:193-205 | the body bytes hashed and the length compared with l= |
| Signing.FoldSignature | internal/dkim/dkimtest/sign.go:134-143 | the signature in lines of 64 characters |
| Signing.FoldedIsExact | internal/dkim/dkimtest/sign.go:134-143 | up to 64 characters are one line, and a longer signature continues behind a CRLF, a tab and a space |
| Signing.SignMessage | internal/dkim/dkimtest/sign.go:47-147 | the field in front of the message carries the hash of exactly those body and header bytes |
| SignVerify.StripRecoversUnsigned | internal/dkim/canon.go:149-185 | stripping the signed field gives the field as it was hashed before signing, for every signature value without a semicolon, folded or not |
| SignatureReading.ParseTagList | internal/dkim/taglist.go:21-47 | the loop over the parts with its set of seen names gives the trimmed tags in their order, and refuses the list for a part without an equals sign, an invalid name or a name that occurs twice |
| SignatureReading.ParseNames | internal/dkim/signature.go:109-124 | the names between the colons, trimmed, refused when one of them is empty or From is missing |
| SignatureReading.AcceptedHasTags | internal/dkim/signature.go:53-125 | an accepted field has its seven required tags, version 1 and From among its names, and both forms are simple without c= |
| ReadBack.PartIsExact | internal/dkim/taglist.go:24-57 | a part is read as a name and a value exactly when a letter followed by letters, digits and underscores stands before its first equals sign, white space aside |
| ReadBack.ReadField | internal/dkim/taglist.go:21-47 | the value of a signed field, as the parser keeps it, has the tags that were written, folding and white space aside, then the signature, then only tags that a semicolon in the lines after it begins; it is refused exactly when these have an invalid name or one twice |
| Agreement.SignerAndVerifierAgree | internal/dkim/verify.go:193-219 | for every message and all options with separators in their place: when the signature field of the signed message is accepted, the verifier, by the forms, names and limit it reads there, hashes the body bytes that were signed if and only if l= was written by the signer or cuts nothing off; and, with plain names, the header bytes that were signed if and only if the lines the message begins with have no semicolon and h= does not list DKIM-Signature more often than the message had it |
| Agreement.SignedFieldReadBack | internal/dkim/signature.go:53-144 | what is read from an accepted field: the signer's two forms and the body hash always, its names if and only if they are plain, its limit if it writes one, no limit otherwise if and only if no extra tag is called l (as long as no semicolon follows), and the signature if and only if white space follows it up to a semicolon |
| Agreement.SignedFieldIsAccepted | internal/dkim/signature.go:53-144 | with readable names and lengths, and extra tags of valid and different names that the signer does not write itself, the field is well formed and accepted if and only if the other checks on its tags pass |
| Agreement.NamesRead | internal/dkim/signature.go:109-124 | the names joined by colons are read back if and only if there is one, and each is nonempty, without a colon or line break and without white space at either end |
| Agreement.LengthRead | internal/dkim/signature.go:138-144 | the decimal numeral of a length is read as that length if and only if it fits into 63 bits |
| Agreement.SignedLengthRead | internal/dkim/signature.go:138-144 | a plus sign before a length is passed over, and with a minus sign only zero is one |
| Disagreement.ExtraLengthIsObeyed | internal/dkim/signature.go:138-144 | an extra l=n on a signature of the whole body is accepted and read as n, and the verifier hashes other body bytes than the signer if and only if n is less than the length of the canonical body |
| Disagreement.ColonNameIsNotSigned | internal/dkim/dkimtest/sign.go:110-124 | a name x:y, x being From, is read as the names x and y, and the header bytes differ for every message that has a field x |
| SignVerify.HashInputsAgree | internal/dkim/dkimtest/sign.go:86-146 | for every message and all four pairs of forms, parsing the signed message gives the signature field, with the continuation lines the message begins with, on top of the old fields and the same body; and with the names, the forms and the limit of the signer, the verifier's hash inputs are the signer's under the same conditions |
| Disagreement.SemicolonLineIsNotSigned | internal/dkim/canon.go:149-185 | whatever follows a first line of a space and a semicolon, and however the message is signed, the header bytes of signer and verifier differ, by the signer's names and, if these are plain, by what the verifier reads |
| SignVerify.SignatureReadBack | internal/dkim/signature.go:79-79 | the value of the b= tag, which takes in those continuation lines up to a semicolon, is without white space the signature if and only if they are white space up to there; with header bytes that agree they are white space throughout |
| HeaderCanon.CanonHeaderKeepsSolid | internal/dkim/canon.go:40-77 | neither header form drops or adds anything but white space and line breaks |
| HeaderSection.Parser.ParseHeaderSection | internal/mailparser/message.go:180-246 | the line loop with its offsets computes the fields, their exact bytes, the size and the position of the body, or the limit that was passed |
| HeaderSection.ParseBytes | internal/mailparser/message.go:124-150 | the same for a whole message, the size limit first |
| HeaderSection.NextLine | internal/mailparser/message.go:165-171 | a line runs to its LF or to the end, and the scan never moves backwards |
| HeaderLaws.ParsingIsLossless | internal/mailparser/message.go:124-246 | on success the input is its leading continuation lines, the exact bytes of its fields, a separator and the body; fields, header size and message size are within their limits |
| HeaderLaws.ReparsingIsStable | internal/mailparser/message.go:124-246 | writing the fields, a blank line and the body gives a message with the same fields and the same body, whenever the last field is terminated |
| HeaderLaws.PrependedField | internal/mailparser/message.go:180-246 | a field put in front of a message becomes its first field, with the continuation lines the message begins with, and every other field and the body stay as they were; it keeps its own bytes if and only if the message does not begin with white space |
| HeaderPrint.WrittenFieldsAreParsed | internal/mailparser/message.go:180-246 | any list of fields, with a name of visible characters without a colon, white space before the colon and any continuation lines, written out with a blank line and a body, is parsed to those names, those exact bytes and that body |
| HeaderPrint.ClassesAreExact | internal/mailparser/message.go:180-246 | a line is blank, a continuation, or begins the field of a name, exactly by its first characters; everything else ends the header section |
| HeaderPrint.ValueIsExact | internal/mailparser/message.go:259-270 | the value of a field is what follows its colon, without line breaks and without the white space around it |
| MimeWalk.Walker.Part | internal/mailparser/mime.go:79-168 | whatever the reader answers, the walk ends within its bounds: either it shows everything the reader says, with nothing nested too deep, or it has stopped right behind what it shows, everything before being shown whole, at a multipart at the nesting limit, at a list to be continued with the count used up, or before a part larger than the rest of the budget; a limit is reported once and last |
| MimeWalk.Walker.Children | internal/mailparser/mime.go:135-163 | the same for the loop over one body: nothing is examined once the walk has stopped |
| MimeWalk.ParseMime | internal/mailparser/mime.go:67-77 | at most MaxMIMEParts nodes, no depth above MaxMIMEDepth, at most one byte more than the budget copied and no more than the budget kept; and the walk is complete if and only if the whole tree has no multipart at the nesting limit, fits the budget and fits the count, with one part to spare if the reader is asked on behind the last |
| MimeWalk.StopExceeds | internal/mailparser/mime.go:119-152 | where a walk stops for a limit, the whole tree exceeds that limit |
| MimeWalk.OpensIsExact | internal/mailparser/mime.go:116-130 | a part is opened exactly when its content type begins with multipart/, it has a boundary, and two dashes and that boundary stand somewhere in its body |
| MimeWalk.ChildrenAreExact | internal/mailparser/mime.go:116-163 | a node with children is such a part and its k-th child is the k-th answer of the reader; shown whole, it has children whenever it is opened and the reader has one |
| MimeWalk.ExactCountIsReported | internal/mailparser/mime.go:136-141 | a message of two parts is out of a limit of two parts, and one whose second part is broken is not |
| MimeWalk.LimitsOnlyPrune | internal/mailparser/mime.go:79-168 | whatever stopped a walk, its tree is that of an unstopped walk with the ends of some lists of children cut off |
| MimeWalk.WholeIsUnique | internal/mailparser/mime.go:79-168 | two walks that were not stopped give the same tree whatever their limits |
| QueryCache.RunKeepsInv | internal/dnsresolver/budget.go:109-134 | the invariant of the cache holds in every state of every interleaving |
| QueryCache.OneFetchPerKey | internal/dnsresolver/budget.go:109-134 | at most one caller is fetching a key at any time |
| QueryCache.DeleteRemovesOwnEntry | internal/dnsresolver/budget.go:120-134 | a caller that takes a failed fetch out of the cache takes out its own entry, never a newer one |
| QueryCache.FetchesAreAccounted | internal/dnsresolver/budget.go:28-38 | fetches of a key are its temporary failures plus one if and only if it is settled or being fetched, and the calls let through are the smaller of attempts and limit |
| QueryCache.CachedIsSettledOrInFlight | internal/dnsresolver/budget.go:109-134 | a key is in the cache if and only if it is settled or being fetched |
| QueryCache.FinalOutcomeStays | internal/dnsresolver/budget.go:109-134 | a value, a permanent error or a budget rejection never changes and is what every later call for the key returns |
| QueryCache.FailuresAreTemporary | internal/dnsresolver/budget.go:120-134 | in every state of every run the fetches of a key are the entries made for it, and its failures are exactly those that ended in a temporary failure and are out of the cache |
| QueryCache.TemporaryIsNotKept | internal/dnsresolver/budget.go:125-132 | no key maps to a fetch that is over and failed temporarily |
| QueryCache.FailedKeyIsFetchedAgain | internal/dnsresolver/budget.go:109-119 | when all fetches of a key are over and failed temporarily, the next call for it begins a new one |
| QueryCache.NoDeadlock | internal/dnsresolver/budget.go:109-134 | while a lookup is not over, some caller can take a step towards the end of its own |
| QueryCache.StepsAreProgress | internal/dnsresolver/budget.go:109-134 | every such step lowers the work that is left, so lookups end unless new ones keep starting |
| QueryCache.Budget.Take | internal/dnsresolver/budget.go:33-38 | an attempt is permitted exactly while fewer than limit were made |
| QueryCache.Budget.Sent | internal/dnsresolver/budget.go:27-28 | the number reported as sent is the number of attempts that were permitted |
| QueryCache.Budget.Exhausted | internal/dnsresolver/budget.go:30-31 | the budget is reported exhausted exactly when some attempt was rejected |
| DmarcVerdict.VerdictIsExact | internal/dmarc/evaluate.go:106-197 | with a usable From domain the verdict is pass if and only if every way of deciding the unknown inputs passes, fail if and only if none does, open if and only if some do and some do not, and temperror if and only if it is no pass and the temporary errors alone could make it one |
| DmarcVerdict.AlignedIsExact | internal/dmarc/alignment.go:26-38 | strict alignment of two names is equality, relaxed alignment is equality of their organizational domains |
| DmarcVerdict.NormalizeIsExact | internal/dmarc/alignment.go:40-42 | white space around a name, one final dot and the case of its letters do not matter |
| DmarcVerdict.PassIsExact | internal/dmarc/evaluate.go:106-133 | under strict modes a message passes exactly when an identifier passes for the From domain itself, under relaxed modes when one passes for its organization |
| DmarcVerdict.RelaxingKeepsPass | internal/dmarc/evaluate.go:106-197 | relaxing a mode never loses a pass, and never makes a fail of what was open |
| DmarcVerdict.SubdomainNeedsRelaxed | internal/dmarc/evaluate.go:106-133 | a message whose one passing identifier is another name of the From domain's organization passes under relaxed modes and not under strict ones |
| DmarcVerdict.Evaluate | internal/dmarc/evaluate.go:106-197 | both alignment flags, the first aligned DKIM domain, the verdict, and the requested policy exactly when the verdict is fail |
| DmarcVerdict.AlignedDkim | internal/dmarc/evaluate.go:107-120 | the domain named is that of the first signature that passes and is aligned |
| DmarcVerdict.OpenInputs | internal/dmarc/evaluate.go:149-172 | only identifiers that could align are held open, and a missing SPF evaluation always is |
| DmarcVerdict.FromDomainIsExact | internal/dmarc/record.go:364-381 | a From domain is accepted exactly when it has at least two labels of 1 to 63 letters, digits, hyphens and underscores, and at most 253 characters, a final dot aside |
| DmarcVerdict.ValidFromIsUsable | internal/dmarc/alignment.go:26-43 | a From domain that was accepted is one that can align at all |
| DmarcRecord.Parse | internal/dmarc/record.go:142-301 | the tag loop with its set of seen names computes the record that the first values of the tags define, or the reason it is refused |
| DmarcRecord.VersionComesFirst | internal/dmarc/record.go:133-137 | a text that matches the version pattern has the version as its first tag, which is why the loop may take it for granted |
| DmarcRecord.IsDmarcIsExact | internal/dmarc/record.go:133-137 | a text is a record exactly when it begins with v=DMARC1 in this letter case, with blanks only around the equals sign and behind it, up to a semicolon or the end |
| DmarcPrint.PrintedIsParsed | internal/dmarc/record.go:142-301 | every record that can be published, written out, is parsed back field by field; tags that are left out have their defaults |
| DmarcPrint.ReadSpaced | internal/dmarc/record.go:160-185 | a tag with white space wherever it may stand and its name in any letter case is read as that name and value |
| DmarcRecord.RepetitionsDoNotMatter | internal/dmarc/record.go:160-185 | deleting a later tag of the same name from a record leaves the parsed record, or the error, unchanged |
| DmarcRecord.OrderDoesNotMatter | internal/dmarc/record.go:160-301 | tags after the version may stand in any order as long as equal tags keep theirs |
| DmarcRecord.SameFirstsSameRecord | internal/dmarc/record.go:160-301 | two records with the same version part, the same first value of every name and the same verdict on malformed tags are parsed alike |
| DmarcRecord.FailureOptions | internal/dmarc/record.go:235-252 | the known options in their order, unknown ones dropped |
| DmarcRecord.AcceptedIsUsable | internal/dmarc/record.go:281-300 | ranges of an accepted record, read off its definition: it has a policy, a percentage of 0 to 100 and failure options, and an implied policy is none, without a subdomain policy |

## Left out

- SpfSoundness.StaticCountBoundsEveryRun: one direction only. Without its conditions the bound can hold or fail: a dynamic or `%{v}` name may lead to any record or to none. DivergingNamesBreakTheBound shows that a `%{v}` name can always make it fail when it takes the client elsewhere.
- SpfSoundness.StaticCountBoundsEveryRun: no such bound is stated for void lookups, which the analyzer model does not count: the program takes an `a` target for void only if it has neither A nor AAAA records, while the evaluator asks for one family.
- SpfExact.StaticCountIsAttained: says which clients count the whole total, not that every policy has such a client.
- SpfLaws.IncludeThenAll, and the other laws of one mechanism and `all`: a mechanism deeper in a record is reached by UncutIsRef and the term loop, not by a law of its own.
- SpfLimits.LargerLimitsSameRun: MaxPTRNames is held fixed, because it truncates silently and changes what is looked up.
- SpfLimits.LoopCheckChangesOnlyReason: assumes a resolver that does not depend on letter case, like the analysis theorem; DNS names are case-insensitive.
- SpfEnough.EnoughLimitsReachTheResult: gives limits that are large enough, not the smallest ones.
- HeaderLaws.ReparsingIsStable: says nothing of a message whose last field is not terminated; there the blank line would end that field.
- Agreement.SignerAndVerifierAgree: extra tags are a list of `name=value;` tags, none of them called b, without semicolons or line feeds in them, and the other option values contain neither; c= names both forms. The hash, the signature and base64 are given functions, and base64 texts have no semicolon. The signed message has to be within the parser limits. For names that are not plain only ColonNameIsNotSigned says something about the header bytes.
- Agreement.SignedFieldReadBack: the checks of a signature that decide nothing about what is hashed (algorithm, domain, selector, identity, query methods, times, and that b= and bh= are base64) are one given predicate on the tags.
- DualCidr.ParseIsExact: which error is reported for a refused argument is not part of the claim, and which domain-specs are valid is given from outside; CidrDomain takes those of the record parser.
- MimeWalk.ParseMime: the limits are positive, as they are once defaults are filled in; of the defects it reports only those of the limits are part of the claim.
- QueryCache.FinalOutcomeStays: a call that began before the key was settled may still return the temporary failure it waited for.
- DmarcVerdict.VerdictIsExact: discovery and the checks before it (several From fields, no record, a failing lookup) are not modelled; the applicable policy is given.
- DmarcRecord.AcceptedIsUsable: modes, fo and the policies are valid by their types.
- Splitting SPF records into terms and DKIM key records into tags: they are given parsed.
- The syntax of DMARC report URIs, the Public Suffix List, media types and their parameters, the multipart reader, cryptography and base64: given from outside.
- DNS transport, HTTP, the command line, rendering, findings, traces, reasons and evidence texts, the raw text, tag list and issues kept with a DMARC record.
- Contexts and deadlines, and a fetch that panics inside the cache.
- Letter case beyond ASCII. Limits are natural numbers, as negative ones have no meaning.
- The key cache and the order of checks of DKIM verification around the two hashes, MX, MTA-STS, TLS-RPT, ARC, Received and Authentication-Results: flat case distinctions.
