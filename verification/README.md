# Verified model of the PII rewriting pipeline

The proxy replaces personal data in a request by sealed tokens, `[CATEGORY:TOKEN_payload]`, and
configured names by aliases; on the way back it undoes both while the answer is still streaming. This
project models that pipeline in Dafny and proves what it promises, over all inputs, all runs and all
chunkings. The limits that occur are the program's own: its cap on buffered bytes and on the length of
a held span.

**A. The streaming rewriter** (`containers/proxy/src/rewrite.rs`, `pii.rs`). Text of a content block is
rewritten as it arrives, and only a tail that a token span or an alias could still straddle is held
back. The path of the proof:

- `TokenSpan`, `SpanWalker`: the span grammar as an automaton; the byte walker decides it; at most one
  tail of a text can be an unfinished span.
- `Detokenize`, `Segments`, `Keywords`: the two passes over a text, each as a left-to-right function and
  as the engine's loop. `Splicing`: which occurrences are replaced. `JsonFragments`: the passes inside a
  JSON string.
- `Unmasking`, `StreamingCut`: the passes distribute over a clean seam, the cut is always clean, hence
  the cut theorem. `CutLimits` and `Exactness`: where its conditions end, with exact conditions and
  failing inputs.
- `Rewriter`, `SseRewriterClass`: the state machine as a function of its state, and the class whose
  methods are proved against it. `RewriterRuns`, `StreamRefinement`, `StreamFraming`: whole runs, from
  events to bytes. `WireFormat`: the rules of the wire, one by one. `ClientView`: what a client reads in
  the rewritten bytes. `Policies`, `TokenLength`: sets of keywords, and lengths of tokens, read off their
  texts, for which the theorems hold.

**B. The tokenization engine** (`crates/pii-engine/src/scan.rs`). `Scan` is the scan as a function,
`ScanEngine` its loops, `ScanProofs` the segment invariant, what detokenization recovers and which
detector spans are sealed, `RuleCoverage` which matches of a rule are, `Detections` and `DetectionReport`
the report. `RoundTrip` joins the request and response directions. `JsonScan`, `JsonPaths` and
`RequestScan` carry detector answers to string leaves.

**C. The detector client** (`containers/proxy/src/ner.rs`). `SpanCache` is the two-generation cache and
its traces; `DetectBatch` one batch through it, with other batches acting between any two of its
cache uses.

**D. Span decoding and checksums** (`crates/pii-ner/tools/gen_fixtures.py`,
`crates/pii-engine/src/validators.rs`). `Windows`, `BioesDecode`, `MergeSpans`, `Snapping`,
`Checksums`, `Luhn`, `Iban`.

What the program keeps in mutable objects is a class here (`SseRewriter`, `Cache`, `NerClient`), and
what it computes in loops is a method with a loop; each is proved equal to a specification function,
and the properties are proved of that function. Text is `seq<char>`, a policy rule is an arbitrary
function from a segment to ranges, and sealing is a parameter (`Sealing.Sealer`) of which only the
inverse and alphabet laws are assumed, shown satisfiable by an instance. Every lemma turns automatic
induction off, so each proof is exactly what its body says.

**Where code and comment differ.** The comment at `containers/proxy/src/pii.rs:281` says that the prefix
and the rest can be transformed one after the other. The code does that under conditions the comment
does not name. Without keywords: a tail released for being over the cap must not become a span, and
this is exact. With one keyword: no proper tail of its alias may begin it, and what is written for it
may not complete a span that was not there; this too is exact, and `Bob` matched without regard to case
fails it. With several keywords, what one keyword and its surroundings write must in addition not
complete an alias that is unmasked later; an input shows that something of the kind is needed, and the
condition used (`Detached`) is sufficient.

The comment at `containers/proxy/src/pii.rs:340` says that a rewritten tool input stays parseable. It does
where neither the text nor a match text unmasked before another holds a control character; a line feed
before `ova` is written with an `n` that the alias `nova` takes for its own (`JsonFragments`).

Masking and unmasking (`crates/pii-engine/src/scan.rs:825-875`) are inverse only up to letter case when
case is disregarded. `RoundTrip` says exactly which occurrences come back as they were.

## Model

| member | source | states |
|---|---|---|
| TokenSpan.AutomatonDecidesGrammar | crates/pii-engine/src/scan.rs:12 | the automaton accepts exactly the texts of the span grammar: bracketed category, marker, payload |
| TokenSpan.ViableIffProperPrefix | crates/pii-engine/src/scan.rs:174-180 | a walk is still alive exactly on the non-empty proper prefixes of spans |
| TokenSpan.SpanLenUnique | crates/pii-engine/src/scan.rs:151-172 | a text starts with at most one span, so the matcher has no choice |
| TokenSpan.BracketIsASeam | crates/pii-engine/src/scan.rs:12 | no span crosses a position before a `[`, or after text without one |
| SpanWalker.SpanPrefixScan | crates/pii-engine/src/scan.rs:182-220 | the byte walker returns the grammar's verdict on every text |
| SpanWalker.VerdictDecidesGrammar | crates/pii-engine/src/scan.rs:174-220 | complete iff the first n characters are the one span, viable iff a proper prefix of a span, else invalid |
| SpanWalker.IncompleteTokenSpanStart | crates/pii-engine/src/scan.rs:224-236 | the skipping search returns the held span, if any |
| SpanWalker.OnlyOneViableTail | crates/pii-engine/src/scan.rs:222-236 | the only tail that can grow into a span starts at the last `[`, and that is the one returned |
| Sealing.ParseInvertsPrint | crates/pii-engine/src/scan.rs:631-634 | parsing a built span gives back its category and payload, for every category of the policy's shape |
| Sealing.TokenResolves | crates/pii-engine/src/scan.rs:239-246 | a built token is one span, and resolves to the sealed value |
| Sealing.SoundnessIsSatisfiable | crates/pii-engine/src/scan.rs:637-642 | the laws assumed of sealing and encoding hold of a concrete instance |
| Detokenize.FindSpan | crates/pii-engine/src/scan.rs:651-663 | the leftmost span from a position, or that there is none |
| Detokenize.DetokenizeTextWith | crates/pii-engine/src/scan.rs:651-672 | the match loop computes the left-to-right reading, error category and match index included |
| Detokenize.DetokenizeConcat | crates/pii-engine/src/scan.rs:651-672 | across a position no span straddles, the whole is the parts one after the other, failures included |
| Detokenize.ErrorNamesFirstFailure | crates/pii-engine/src/scan.rs:630-672 | a refused text names the category of its first span that does not open, and the number of spans before it, which all do |
| Detokenize.EscapedTextReadsBack | containers/proxy/src/pii.rs:333-338 | a reader of JSON strings, two-character and hexadecimal escapes included, gets the escaped text back as exactly the text and stops behind the closing quote |
| Detokenize.EscapedTextIsClean | containers/proxy/src/pii.rs:333-338 | escaped text holds no control character, and no quote but behind a backslash |
| Segments.MaskSpans | crates/pii-engine/src/scan.rs:151-172 | the match loop cuts a text into its spans and the non-empty plain runs between them, each with its origin |
| ScanProofs.MaskedShowsText | crates/pii-engine/src/scan.rs:151-172 | the segments put together are the text again |
| Keywords.FindCaseInsensitive | crates/pii-engine/src/scan.rs:784-808 | the first occurrence up to ASCII case, or none; an empty needle never occurs |
| Keywords.SubstitutePreservingCase | crates/pii-engine/src/scan.rs:825-863 | the search loop performs the left-to-right replacement of every occurrence |
| Keywords.PlainRunIsSubstituted | crates/pii-engine/src/scan.rs:895-918 | a plain run is substituted the same with or without the token after it |
| Keywords.SegmentwiseIsOnePass | crates/pii-engine/src/scan.rs:895-918 | substituting segment by segment is one pass that steps over spans |
| Keywords.UnaliasPreservingTokens | crates/pii-engine/src/scan.rs:895-918 | the segment loop computes that pass |
| Keywords.UnmaskKeywordsText | containers/proxy/src/pii.rs:242-257 | every keyword in turn, tokens stepped over each time |
| Splicing.EveryOccurrenceIsReplaced | crates/pii-engine/src/scan.rs:825-863 | the result is the text with non-overlapping occurrences replaced, each by its shaped replacement; every other occurrence begins within one of them; all else is kept |
| Splicing.UnmaskInTurn | containers/proxy/src/pii.rs:242-257 | the keywords of a list are unmasked one after the other |
| JsonFragments.RewrittenFragment | containers/proxy/src/pii.rs:340-359 | rewriting commutes with JSON escaping, for texts and earlier match texts without control characters |
| JsonFragments.FragmentReadsBack | containers/proxy/src/pii.rs:340-359 | so what a client parses out of a rewritten fragment is the rewritten text, whatever quotes and backslashes the values hold |
| JsonFragments.ToolInputReadsBack | containers/proxy/src/rewrite.rs:118-132 | in a session, tool input is rewritten so that a client reads in it what visible text would say; thinking is rewritten as visible text |
| JsonFragments.ControlBreaksFragment | containers/proxy/src/pii.rs:340-359 | an input for which it is not so: the letter of an escape begins an alias, and no JSON string is left |
| Unmasking.SubstituteConcat | crates/pii-engine/src/scan.rs:895-918 | unmasking distributes over a position that neither a span nor an occurrence straddles |
| Unmasking.NoNewSpanAtSeam | containers/proxy/src/pii.rs:263-270 | a span-neutral keyword leaves no new span across a clean position |
| Unmasking.NoNewHitAtSeam | containers/proxy/src/pii.rs:242-257 | unmasking one keyword makes no occurrence of a detached later one across the position |
| StreamingCut.UnmaskAndDetokenize | containers/proxy/src/pii.rs:263-270 | unmask, then detokenize, as a value or the first failure |
| StreamingCut.SuffixIsProperAliasPrefix | containers/proxy/src/pii.rs:319-331 | true iff the tail is a non-empty proper prefix of the alias under the keyword's case rule |
| StreamingCut.FindAliasPrefixStart | containers/proxy/src/pii.rs:303-316 | looking at the last positions only finds the earliest such tail of the whole text |
| StreamingCut.SafePrefixLen | containers/proxy/src/pii.rs:284-299 | the running minimum is the earliest cut any keyword or a held span of capped length asks for |
| StreamingCut.CutIsClean | containers/proxy/src/pii.rs:281-331 | for overlap-free aliases nothing that is looked for straddles the cut, whatever follows |
| StreamingCut.RewriteConcat | containers/proxy/src/pii.rs:263-270 | across a clean position the rewrite of the whole is the two rewrites joined, failing iff one fails |
| StreamingCut.CutTheorem | containers/proxy/src/pii.rs:281-331 | rewriting the safe prefix, then the held tail with any continuation, is rewriting it all; any number of keywords, verbatim or JSON-escaped replacements |
| StreamingCut.HeldIsIrreducible | containers/proxy/src/pii.rs:237-299 | a held tail has safe prefix 0 and is at most the span cap long |
| StreamingCut.HeldTail | containers/proxy/src/pii.rs:237-331 | what the cut holds back is the beginning of a span, within the cap, or of an alias; nothing else is held |
| TokenLength.FitsExactly | containers/proxy/src/pii.rs:231-237 | the hypothesis of the streaming theorems on spans, for any text: no category and payload have more than 4088 characters together |
| TokenLength.ValuesThatFit | containers/proxy/src/pii.rs:231-237 | under any category of a policy a value of up to 3002 bytes makes a token that fits, and under the longest category no longer value does |
| Exactness.OneKeywordExactly | containers/proxy/src/pii.rs:281-331 | with one keyword the cut theorem holds of all sealers, texts and continuations iff no proper tail of its alias begins it and its replacement is span-neutral |
| Exactness.NeutralityIsNeeded | containers/proxy/src/pii.rs:242-299 | every replacement that is not span-neutral, by opening, closing or continuing a span, gives a text that is cut wrongly |
| CutLimits.OverlapBreaksTheCut | containers/proxy/src/pii.rs:303-331 | every self-overlapping alias is cut apart when it arrives and never unmasked, wrongly unless its replacement reads as the alias itself |
| CutLimits.NoKeywordExactly | containers/proxy/src/pii.rs:284-299 | without keywords a cut is harmless iff a tail released over the cap does not become a span |
| CutLimits.OverlongSpanBreaksTheCut | containers/proxy/src/pii.rs:284-299 | and when it does, some sealer shows the difference |
| CutLimits.OuterMatchIsNeutral | containers/proxy/src/pii.rs:242-270 | a match text without brackets and with a character outside the span alphabet never completes a span |
| CutLimits.WordMatchIsNeutral | containers/proxy/src/pii.rs:242-270 | neither does an ordinary word, in any case the alias may show, JSON-escaped or not |
| CutLimits.InterferenceBreaksTheCut | containers/proxy/src/pii.rs:242-257 | two well-behaved keywords and a text for which the cut fails because one replacement completes the other alias |
| CutLimits.CompletedSpanBreaksTheCut | containers/proxy/src/pii.rs:242-270 | a keyword and a text for which the cut fails because the replacement completes a span |
| SseRewriterClass.SseRewriter.PushChunk | containers/proxy/src/rewrite.rs:210-229 | output, error and new state of the drain loop are those of the specification, size checks included |
| SseRewriterClass.SseRewriter.Finish | containers/proxy/src/rewrite.rs:231-250 | the last line, the last event and every block in index order, as specified |
| SseRewriterClass.SseRewriter.ConsumeLine | containers/proxy/src/rewrite.rs:254-280 | one line: framing fields and, at a blank line, the event |
| SseRewriterClass.SseRewriter.OnEventComplete | containers/proxy/src/rewrite.rs:282-331 | one event: passed on, rewritten, or a flush followed by the event's own bytes |
| SseRewriterClass.SseRewriter.RewriteDelta | containers/proxy/src/rewrite.rs:335-374 | a change of kind flushes; the payload is buffered and the safe prefix emitted |
| SseRewriterClass.SseRewriter.FlushBlock | containers/proxy/src/rewrite.rs:377-397 | what a block holds is transformed, emitted if not empty, and no longer held |
| RewriterRuns.ChunkingInvariance | containers/proxy/src/rewrite.rs:210-280 | two ways of cutting one byte stream give the same output or the same error, if neither hits the size cap |
| RewriterRuns.CapOnlyRefuses | containers/proxy/src/rewrite.rs:217-226 | the size check changes nothing but the verdict |
| RewriterRuns.FramingThenEvents | containers/proxy/src/rewrite.rs:254-280 | consuming lines is splitting them into events and acting on those in order |
| RewriterRuns.FramingIsPreserved | containers/proxy/src/rewrite.rs:282-331 | of any events: without the text deltas, input and output are the same bytes in the same order |
| StreamFraming.EventsAreTheBytes | containers/proxy/src/rewrite.rs:254-280 | the events of a stream hold exactly its bytes, a newline added when the last line has none |
| StreamFraming.StreamFramingIsPreserved | containers/proxy/src/rewrite.rs:210-331 | of any chunks that are rewritten to the end: framing did not fail, the events hold the stream's bytes, and without the text deltas output and input agree |
| StreamFraming.BlockEventFlushesFirst | containers/proxy/src/rewrite.rs:312-327 | whatever the keywords: an event of a block emits all the block owes, as deltas of it and of the kind it holds, then its own bytes, and leaves nothing owed; a stop removes the block |
| StreamFraming.StreamFlushesFirst | containers/proxy/src/rewrite.rs:210-331 | the same at every such event of a byte stream |
| StreamFraming.StreamShowsBeforeBlockEvent | containers/proxy/src/rewrite.rs:210-331 | and with well-behaved keywords, what has been shown by then is every earlier episode, rewritten in one piece |
| ClientView.ClientReadsShownText | containers/proxy/src/rewrite.rs:400-432 | the rewritten bytes, framed and parsed again, hold for every block the text the rewriter showed, each character as the kind (text, tool input, thinking) it was shown as |
| ClientView.ClientReadsOneShot | containers/proxy/src/rewrite.rs:210-432 | from bytes to bytes: a client reads of each block its episodes with their kinds, each rewritten in one piece |
| ClientView.DeltaReads | containers/proxy/src/rewrite.rs:400-432 | a synthesized delta is one whole event, named iff it should be, that says exactly that block, kind, text and those extra fields |
| WireFormat.TextEventCarries | containers/proxy/src/rewrite.rs:335-397 | what a text event emits carries its own block, kind and extra fields, and its naming; at a change of kind what was held goes first, as the kind and with the fields it was held with |
| WireFormat.BlockFrameFlushes | containers/proxy/src/rewrite.rs:311-327 | any other frame of a block first shows what the block holds, as its kind, then its own bytes; a stop forgets the block; other blocks stay as they are |
| WireFormat.TextEventsExactly | containers/proxy/src/rewrite.rs:292-315 | which events are text of a block: those that read as a delta with a payload, neither blank nor the end marker |
| WireFormat.MarkersPassThrough | containers/proxy/src/rewrite.rs:288-300 | events without data and the end marker pass through and change nothing |
| WireFormat.OtherFramesPassThrough | containers/proxy/src/rewrite.rs:326-327 | so do frames that are not about a block |
| WireFormat.UnreadableStops | containers/proxy/src/rewrite.rs:301-352 | data that cannot be read, or a delta whose payload is no string, stops the stream with its own reason |
| WireFormat.EndingIsStripped | containers/proxy/src/rewrite.rs:262-268 | a line that ends in CR LF says what it says ending in LF |
| WireFormat.DataLineAdds | containers/proxy/src/rewrite.rs:272-275 | a data line adds its value, after at most one space, or stops the stream when it is not UTF-8 |
| WireFormat.EventLineNames | containers/proxy/src/rewrite.rs:276-277 | an event line only marks the event as named |
| WireFormat.OtherLineIsCarried | containers/proxy/src/rewrite.rs:261-280 | any other line is only carried along |
| WireFormat.BlankLineCompletes | containers/proxy/src/rewrite.rs:269-271 | a blank line, in either ending, completes the event with all that was collected |
| WireFormat.PiecesHoldAll | containers/proxy/src/rewrite.rs:335-397 | text read with its kinds is the same as non-empty pieces, no two neighbours of one kind |
| WireFormat.AscendingIsInOrder | containers/proxy/src/rewrite.rs:231-252 | the last flush visits every block once, lowest index first |
| WireFormat.OversizedExactly | containers/proxy/src/rewrite.rs:210-229 | a chunk is refused iff it and what is buffered of line and event exceed eight mebibytes; what stays buffered never does |
| RewriterRuns.HeldStaysSmall | containers/proxy/src/rewrite.rs:351-397 | every event keeps each held tail irreducible and within the cap |
| RewriterRuns.HeldStaysSmallInStream | containers/proxy/src/rewrite.rs:210-397 | so it is in every state reachable by chunks of bytes |
| StreamRefinement.StreamRefinesOneShot | containers/proxy/src/rewrite.rs:335-397 | the run fails iff the one-shot transform of some episode of some block fails; else each block shows its episodes, each transformed in one piece and as its own kind |
| StreamRefinement.BytesRefineOneShot | containers/proxy/src/rewrite.rs:210-397 | the same for any chunking of a byte stream |
| StreamRefinement.TextBeforeBlockEvent | containers/proxy/src/rewrite.rs:305-327 | when the bytes of a stop event or a non-text delta go out, what is shown of the block is every episode in full, for well-behaved keywords |
| Policies.ReadableIsWellBehaved | containers/proxy/src/pii.rs:237-299 | keywords whose texts keep apart in any case, are words or hold an outer character, and have overlap-free aliases meet every condition of the streaming theorems, JSON-escaped or not |
| Policies.OneKeywordIsWellBehaved | containers/proxy/src/pii.rs:242-331 | one keyword does, if its alias does not overlap itself |
| Policies.ReadablePoliciesExist | crates/pii-engine/src/policy.rs:250-281 | a policy of an ordinary word and a name of two words, matched without regard to case, that does |
| Scan.NormalizeIsOrdered | crates/pii-engine/src/scan.rs:342-364 | the kept detector spans are well-formed given ones, in order and disjoint |
| Scan.NormalizeIsMaximal | crates/pii-engine/src/scan.rs:342-364 | a span within the text whose category could name a rule is kept, or a kept one reaches over its start that begins before it, or with it and is at least as long |
| Scan.KeptWereGiven | crates/pii-engine/src/scan.rs:342-364 | a kept span was given, is not empty, lies in the text, and has a category of one capital letter and up to 63 capitals, digits and underscores |
| RuleCoverage.RuleHitsExactly | crates/pii-engine/src/scan.rs:271-305 | every hit of a rule is a match of one of its patterns that its validator accepts; every such match is a hit, or begins inside a hit that begins before it, or with it and is at least as long |
| RuleCoverage.EveryMatchIsCovered | crates/pii-engine/src/scan.rs:249-338 | in a whole scan: what a sealing rule matches in a plain segment is sealed in the result, itself or by a match that takes its place |
| RuleCoverage.SealedIsMatch | crates/pii-engine/src/scan.rs:271-338 | and a value that a rule seals is such a match, in a plain segment it was given |
| ScanEngine.TokenizeSegment | crates/pii-engine/src/scan.rs:271-338 | the loops over patterns, hits and pieces compute the carved segment and the hit count; the token cache never shows |
| ScanEngine.ApplyRule | crates/pii-engine/src/scan.rs:249-267 | one rule over every plain segment, with the total of its hits |
| ScanEngine.NormalizeExternal | crates/pii-engine/src/scan.rs:342-364 | filter, stable sort and greedy choice, as specified |
| ScanEngine.ApplyExternal | crates/pii-engine/src/scan.rs:366-445 | the sealing of detector spans in every plain segment, and the count of sealed and observed ones by category |
| ScanEngine.ScanTextWithExternal | crates/pii-engine/src/scan.rs:462-498 | the whole scan with both reports, or the first seal failure |
| Detections.ReportIsWhatWasSealed | crates/pii-engine/src/scan.rs:366-498 | of every category the reports count exactly the tokens the scan put into the text |
| DetectionReport.RuleIsReported | crates/pii-engine/src/scan.rs:249-338 | each rule that hits has one entry, in rule order, with its category, whether it seals, and the number of its hits in what the rules before it left |
| DetectionReport.HitsAreCounted | crates/pii-engine/src/scan.rs:249-267 | where those hits are its hits in each plain segment, added up |
| DetectionReport.DetectorReportExactly | crates/pii-engine/src/scan.rs:366-445 | one entry for each category of which a kept span lies in a plain segment, observed or sealed, counting those spans; marked as sealed iff no rule only observes the category |
| ScanProofs.ScanKeeps | crates/pii-engine/src/scan.rs:249-445 | plain segments are source at their origin, span-free and never adjacent; earlier tokens survive verbatim in order; what the pieces recover is unchanged |
| ScanProofs.PlainIsSource | crates/pii-engine/src/scan.rs:143-172 | every segment stands for the source at its origin |
| ScanProofs.ShownRecovers | crates/pii-engine/src/scan.rs:630-672 | every span in the output is exactly one masked segment |
| ScanProofs.ScanPreservesRecovery | crates/pii-engine/src/scan.rs:462-498 | detokenizing the scanned text recovers what detokenizing the text did, as an optional value |
| ScanProofs.ScanRoundTrip | crates/pii-engine/src/scan.rs:462-498 | a text that held no span comes back as it was |
| ScanProofs.ExternalSealedExactly | crates/pii-engine/src/scan.rs:380-445 | a normalized span not observe-only is sealed iff it lies in one plain segment the rules left |
| RoundTrip.ShapedAliasShowsCase | crates/pii-engine/src/scan.rs:737-779 | an alias put into lower, upper or title case shows that case, for Title exactly when a letter follows its first |
| RoundTrip.UnmaskingUndoesMasking | crates/pii-engine/src/scan.rs:825-875 | with a border-free alias absent from the text, unmasking the masked text gives it back up to the case of each occurrence |
| RoundTrip.RoundTripExactly | crates/pii-engine/src/scan.rs:825-875 | and gives it back exactly iff the keyword regards case or the case of every replaced occurrence survives |
| RoundTrip.RecasedExactly | crates/pii-engine/src/scan.rs:825-863 | a text is unchanged iff every occurrence that the left-to-right pass replaces comes back |
| RoundTrip.CaseSensitiveRestores | crates/pii-engine/src/scan.rs:825-875 | a case-sensitive keyword gives every text back |
| RoundTrip.CaseInsensitiveRestores | crates/pii-engine/src/scan.rs:737-875 | which occurrences come back: iff no letters, or lower or upper case, or title case with a letter after the alias's first, or the match text itself with an alias in mixed case |
| RoundTrip.MixedCaseIsNotRestored | crates/pii-engine/src/scan.rs:737-779 | a mixed-case occurrence, for which that condition fails, and what comes back |
| RoundTrip.TwoWayRoundTrip | containers/proxy/src/pii.rs:218-270 | scan, mask, unmask, detokenize on bracket-free text without the alias: what comes back, and that it is the text iff the keyword regards case or every masked occurrence's case survives |
| RoundTrip.OuterMatchAvoidsTokens | containers/proxy/src/pii.rs:218-228 | masking cannot touch a token when the match text holds a character outside the span alphabet |
| JsonScan.ScanJsonValue | crates/pii-engine/src/scan.rs:572-628 | the nested loops with one threaded leaf counter compute the walk |
| JsonScan.TraverseMaps | crates/pii-engine/src/scan.rs:572-628 | the walk keeps the shape, counts the leaves and gives the j-th leaf the j-th answer, or fails at the first leaf that does |
| JsonPaths.EveryPlaceIsVisited | crates/pii-engine/src/scan.rs:572-628 | at the end of every path: a string is one of the leaves, under the key of the last member, and becomes what that leaf becomes; arrays keep their length, objects their keys, the rest stays |
| JsonPaths.EveryLeafIsAString | crates/pii-engine/src/scan.rs:547-570 | every leaf is a string at the end of some path, under that key |
| RequestScan.LeavesAlign | containers/proxy/src/pii.rs:143-214 | one list per leaf of the request, `system` first and then every message content, is never a count error; the j-th leaf is sealed with the j-th list and masked; the body keeps its shape, and outside the scanned subtrees it is unchanged |
| RequestScan.RootsExactly | containers/proxy/src/pii.rs:200-214 | the scanned subtrees are exactly `system` and the message contents that are there, `system` first and messages in order |
| RequestScan.DetectorSees | containers/proxy/src/pii.rs:123-164 | the detector is shown one text per leaf: blank for `system`, protocol fields and encoded data, the leaf itself otherwise |
| RequestScan.MaskTextInTurn | containers/proxy/src/pii.rs:218-228 | the keywords of a list are masked one after the other |
| RequestScan.NoDetectorIsSilence | containers/proxy/src/pii.rs:178-180 | the scan without a detector is the scan with one that finds nothing |
| RequestScan.ShortListsAreRefused | crates/pii-engine/src/scan.rs:527-545 | a request with fewer lists than leaves never succeeds |
| RequestScan.MaskKeywordsLoop | containers/proxy/src/pii.rs:218-228 | every keyword over every string of a subtree |
| RequestScan.ScanRequestWithExternal | containers/proxy/src/pii.rs:168-198 | the loop that rewrites root by root and drains the lists computes the specified body or error, with a detector or without |
| SpanCache.Cache.Get | containers/proxy/src/ner.rs:129-140 | young, then old with promotion and no size check |
| SpanCache.Cache.Put | containers/proxy/src/ner.rs:142-151 | a full young generation becomes the old one |
| SpanCache.HitsAreLatest | containers/proxy/src/ner.rs:98-152 | over every trace a hit returns the value last put for its key |
| SpanCache.RecentlyUsedIsRetained | containers/proxy/src/ner.rs:98-152 | a put or found key stays a hit while fewer distinct other keys than a generation holds are put or found |
| SpanCache.RetentionBoundIsTight | containers/proxy/src/ner.rs:98-152 | a trace that evicts a key with exactly that many others |
| DetectBatch.NerClient.DetectBatch | containers/proxy/src/ner.rs:214-291 | for any interleaving: which texts are posted, which outcome, which state; the two defensive reasons never occur; with right answers around, every list is the filtered answer for its text |
| DetectBatch.Settings.FilterSpans | containers/proxy/src/ner.rs:338-349 | the kept spans are exactly those sure enough, of an accepted label when labels are given, with their offsets and category |
| DetectBatch.FilterInOrder | containers/proxy/src/ner.rs:338-349 | filtering goes through a list in order, span by span |
| DetectBatch.FilterOne | containers/proxy/src/ner.rs:338-349 | one span is kept once or dropped |
| DetectBatch.NoTroubleExactly | containers/proxy/src/ner.rs:252-275 | a batch is answered iff nothing is left to ask, or what is left is no more than four mebibytes of UTF-8 and gets one list per text |
| DetectBatch.NerClient.FirstLookups | containers/proxy/src/ner.rs:218-230 | blank texts are answered, the rest looked up in order |
| DetectBatch.NerClient.SecondLookups | containers/proxy/src/ner.rs:233-238 | only what is still missing is looked up again |
| DetectBatch.CollectPending | containers/proxy/src/ner.rs:239-250 | the texts without an answer, the first of each key |
| DetectBatch.NerClient.Fill | containers/proxy/src/ner.rs:276-281 | each list filtered and put, other batches in between |
| DetectBatch.CollectResolved | containers/proxy/src/ner.rs:396-399 | all lists, iff every slot is filled |
| DetectBatch.PostsAreDistinct | containers/proxy/src/ner.rs:239-250 | a batch posts texts of its own, none blank, no key twice |
| DetectBatch.QuietBatchPostsTheUncached | containers/proxy/src/ner.rs:214-250 | undisturbed, a non-blank text's key is posted iff the cache lacks it |
| DetectBatch.SecondRoundSparesThePost | containers/proxy/src/ner.rs:233-250 | a text whose key another batch put while this one waited is not posted again, as long as no more than a generation of other keys is used in between |
| DetectBatch.RightOpsKeepSound | containers/proxy/src/ner.rs:129-151 | no sequence of lookups and right puts makes the cache wrong |
| DetectBatch.OwnPutsAreRight | containers/proxy/src/ner.rs:276-281 | what a batch puts is what it relies on others to put |
| Windows.WindowRanges | crates/pii-ner/tools/gen_fixtures.py:47-57 | the loop ends with the windowing of n tokens |
| Windows.WindowingIsUnique | crates/pii-ner/tools/gen_fixtures.py:47-57 | a text has one windowing |
| Windows.NeighboursOverlapBy64 | crates/pii-ner/tools/gen_fixtures.py:18-19 | windows but the last are full and overlap the next by exactly 64 |
| Windows.ShortRunsAreWhole | crates/pii-ner/tools/gen_fixtures.py:47-57 | every run of at most 65 tokens lies in one window, hence every token does |
| Windows.WholeExactly | crates/pii-ner/tools/gen_fixtures.py:47-57 | for runs of any length, exactly which lie in one window |
| BioesDecode.DecodeBioes | crates/pii-ner/tools/gen_fixtures.py:151-188 | the loop with its open span yields one span per maximal run of joined tokens, empty ones dropped |
| BioesDecode.DecodedInOrder | crates/pii-ner/tools/gen_fixtures.py:151-188 | on monotone offsets the spans are non-empty, sorted and disjoint |
| BioesDecode.MarkedTokensAreCovered | crates/pii-ner/tools/gen_fixtures.py:151-188 | each non-empty marked token lies in one span, of its own label, and no other span touches it |
| BioesDecode.OutsideTokensAreUncovered | crates/pii-ner/tools/gen_fixtures.py:162-167 | no span touches a non-empty outside token |
| BioesDecode.SharedExactly | crates/pii-ner/tools/gen_fixtures.py:169-186 | two marked neighbours share a span iff the second continues the first |
| BioesDecode.RunsComeFromTokens | crates/pii-ner/tools/gen_fixtures.py:151-188 | every span starts and ends where tokens of its label do |
| MergeSpans.MergeSameLabel | crates/pii-ner/tools/gen_fixtures.py:218-227 | sorting and editing the last output in place computes the merge |
| MergeSpans.MergedAreApart | crates/pii-ner/tools/gen_fixtures.py:218-227 | non-empty, sorted, disjoint, neighbours of one label strictly apart, and merging again changes nothing |
| MergeSpans.EverySpanIsAccounted | crates/pii-ner/tools/gen_fixtures.py:218-227 | each input lies in an output of its label at least as sure, or begins in one of another label |
| MergeSpans.MergedAreMadeOf | crates/pii-ner/tools/gen_fixtures.py:218-227 | each output is exactly covered by inputs of its label inside it, one of them as sure |
| MergeSpans.LongerWins | crates/pii-ner/tools/gen_fixtures.py:218-227 | where spans of two labels begin together, the kept one is of the longer, or of the first label at equal length |
| Snapping.Snap | crates/pii-ner/tools/gen_fixtures.py:191-215 | from byte offsets to byte offsets: the two loops stop at the nearest word edges outwards, and nowhere else |
| Snapping.ExpectedAreWholeWords | crates/pii-ner/tools/gen_fixtures.py:247-254 | merge, snap, merge gives spans apart, within the text, that cut no word; merging or snapping again changes nothing |
| Snapping.EdgesAreBetweenWords | crates/pii-ner/tools/gen_fixtures.py:191-215 | no letter or digit stands beyond a snapped edge, nor a hyphen or apostrophe with one behind it; what the edge moved over belongs to the word |
| Snapping.EverySpanIsExpected | crates/pii-ner/tools/gen_fixtures.py:247-254 | each given span lies in a merged one of its label or begins in one of another, and so does that one, widened, in an expected one |
| Snapping.ExpectedAreMadeOf | crates/pii-ner/tools/gen_fixtures.py:247-254 | and each expected span is covered by widened ones of its label |
| Checksums.PeselSum | crates/pii-engine/src/validators.rs:5-21 | accepted iff eleven digits whose weighted sum, check digit included, is a multiple of ten |
| Checksums.PeselFormula | crates/pii-engine/src/validators.rs:5-21 | the rule written out, weight by weight |
| Checksums.PeselCatchesOneDigit | crates/pii-engine/src/validators.rs:5-21 | every single wrong digit is rejected |
| Checksums.PeselSwapExactly | crates/pii-engine/src/validators.rs:5-21 | an adjacent swap passes iff the digits are equal or differ by five |
| Checksums.NipSum | crates/pii-engine/src/validators.rs:24-40 | accepted iff ten digits whose weighted sum less the check digit is a multiple of eleven |
| Checksums.NipFormula | crates/pii-engine/src/validators.rs:24-40 | the rule written out, weight by weight |
| Checksums.NipCatchesOneDigit | crates/pii-engine/src/validators.rs:24-40 | every single wrong digit is rejected |
| Checksums.NipCatchesSwaps | crates/pii-engine/src/validators.rs:24-40 | an adjacent swap passes iff the digits are equal |
| Luhn.ValidateLuhn | crates/pii-engine/src/validators.rs:43-65 | the alternating loop computes the place-weighted digit sum and its verdict |
| Luhn.CheckDigitExactly | crates/pii-engine/src/validators.rs:43-65 | accepted iff 13 to 19 digits of which the last makes the sum of the others, every second one doubled, a multiple of ten |
| Luhn.DoubledIsDigitSum | crates/pii-engine/src/validators.rs:43-65 | what a doubled digit adds is the digit sum of its double |
| Luhn.CatchesOneDigit | crates/pii-engine/src/validators.rs:43-65 | every single wrong digit is rejected, whatever stands between the digits |
| Luhn.SwapExactly | crates/pii-engine/src/validators.rs:43-65 | an adjacent swap passes iff the digits are equal or are 0 and 9 |
| Iban.ValidateIban | crates/pii-engine/src/validators.rs:67-95 | the digit-by-digit remainder is the rearranged, spelled-out decimal number modulo 97 |
| Iban.CheckDigitsExactly | crates/pii-engine/src/validators.rs:67-95 | of a spelled-out value of 15 to 34 characters: accepted iff the check digits are 98 less the number with 00 in their place, modulo 97 |
| Iban.OthersAreRejected | crates/pii-engine/src/validators.rs:67-95 | a value shorter, longer or with any other character is rejected |
| Iban.CatchesOneCharacter | crates/pii-engine/src/validators.rs:67-95 | a digit changed for another digit, or a letter for another letter, is rejected |

## Left out

- Positions are characters, where the source counts UTF-8 bytes in text offsets. A held span is ASCII, so the span cap counts the same; moving an offset back to a character boundary has nothing to do here.
- Case mapping is ASCII; the source also maps other letters, some of which change the length of the text.
- The regular expression engine: a rule is any function from a segment to ranges, and only in-bounds ranges its check accepts are used. JSON text is already parsed, or classified by a parameter (`Codec`); how a frame is serialized is another parameter.
- AES-SIV and base64url: `Sealer` assumes only that opening inverts sealing, decoding inverts encoding, and encodings are non-empty over the payload alphabet.
- `Existing` and `Sealed` segments are one case in the source; the model tells them apart to state what survives.
- RequestScan.ScanRequestWithExternal: returns the body or the error, not the report merged over all leaves; the report of one text is modelled.
- `detokenize_text_lossy` and `detokenize_json`.
- Bodies that are not event streams (`ResponseRewriteBuffer`), and the state of a rewriter after an error, which the program drops.
- RewriterRuns.ChunkingInvariance: says nothing when a run is refused as oversized, because whether the buffer is over its cap does depend on the chunks.
- StreamRefinement.StreamRefinesOneShot: assumes that no span of an episode is longer than the cap, and the conditions on keywords; where these fail `CutLimits` shows the difference.
- StreamingCut.CutTheorem: for several keywords the conditions are sufficient, not shown exact; `Detached` also rules out pairs between which the cut never falls. They are exact for one keyword and for none.
- Exactness.OneKeywordExactly: leaves out an alias that is part of the word TOKEN, because such an alias is unmasked within an unfinished token as well.
- JsonFragments.RewrittenFragment: the absence of control characters is sufficient, not shown exact; an alias that no escape can run into needs less.
- TokenLength.ValuesThatFit: takes the lengths of ciphertext and payload as given, since the cipher and its encoding are parameters.
- ClientView.ClientReadsShownText: assumes that the stream ends with a blank line; otherwise the last event is passed on unfinished and the deltas flushed after it run into it.
- RoundTrip.TwoWayRoundTrip: one keyword; with several, what one alias writes can be matched by the next.
- `Value` trees are rewritten in place by the source and returned by the model; sibling order and key order are kept, aliasing does not arise.
- The cache's poisoned-lock recovery, its hashing, HTTP posts, the one retry, timeouts and warning limits. A batch's post is one call; keys need only decide the answer, which injective keys do. No bound on the cache's total size is stated: a lookup promotes without one.
- Confidence is a real number where the source rounds to floats. No numeric model or tokenizer is part of this model.
- In decoding, a tag without a `-` (an exception in the source) is not modelled, and what windows contribute to one score (`expected_spans` before its first merge) is not either.
- Snapping.ExpectedAreWholeWords: counts positions in characters; `Snapping.Snap` does the conversion from and to byte offsets.
- Request handlers, routing, policy files and the command line.
