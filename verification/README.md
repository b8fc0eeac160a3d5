# tg-proxy: byte-range machinery, modelled and proved

tg-proxy looks for sensitive values in HTTP bodies and rewrites them. This project models how findings
are located, mapped back, merged, cut across stream chunks and rewritten, and proves what that machinery
promises. Scanners are functions from bytes to findings; the one concrete scanner is the TOKEN scanner of
the echo plugin.

## Files

- `Findings.dfy`, `Text.dfy`: bytes, ranges, findings; characters and their UTF-8 bytes.
- `Mask.dfy`: the mask redactor. `Masked` says, byte by byte, what masking means; the filter, sort,
  coalesce and rebuild program computes it; the coalesced ranges are the connected components of
  "shares a byte".
- `Cut.dfy`: the single pass that lowers the flush boundary.
- `Stream.dfy`, `StreamTheorems.dfy`: the sliding-window stream redactor as a class and as a transition
  system, and what holds over all its runs.
- `Echo.dfy`: the TOKEN scanner, which instantiates the streaming theorem.
- `Views.dfy`: transformed views in general. A view reads the source token by token; if tokens do not
  depend on what follows them, the view is local.
- `UrlDecode.dfy`, `CommentStrip.dfy`, `Normalize.dfy`, `Base64.dfy`, `Base64View.dfy`, `Stitch.dfy`: the
  six transforms.
- `FanOut.dfy`, `Pipeline.dfy`: concurrent scanning, merging, the guarded scan.
- `Remapping.dfy`: what a finding of each view means in the body it is mapped back to.
- `LeafStore.dfy`: the LRU cache of leaf certificates.
- `Luhn.dfy`, `Presidio.dfy`: the card-number check and the character-to-byte offset map.

## Main results

- Streaming refines buffering (`StreamTheorems.StreamingEqualsBuffering`): for every chunking the stream
  writes exactly the mask of the whole body. For the TOKEN scanner this holds on all bodies and chunkings
  if and only if the window is at least 4 and the buffer ceiling at least window + 5
  (`Echo.EchoStreamingExactly`). However a run stops, by cancellation, a failed read or a write that breaks
  off, what it has written is a prefix of the masked body (`StreamTheorems.EveryRunWritesPrefix`).
- The six transformed passes, with their pre-checks, find exactly what running every pass on every body
  would find (`Pipeline.Scan`), whatever the goroutine schedule (`FanOut.EverySchedule`).
- Encoded text is recovered by the views, and mapped offsets stand for exactly the right source bytes,
  with the exact condition where they do not (`UrlDecode.DecodingIsLocal`, `CommentStrip.StrippingIsLocal`,
  `Base64View.EncodedTextIsRecovered`, `Views.StretchCoveredIff`).
- Every finding inside a view, of a scanner that opted in, is offered once and in order, mapped to the right
  source range (`Remapping.ContributionIsRight`).
- A byte is covered after a scan if and only if a raw finding covers it or a finding of a later pass that
  duplicates nothing merged before it does (`Pipeline.ScanCoversByteIff`).
- Under every interleaving of requests, failed signings included, the certificate cache holds the most
  recently used hosts in order (`LeafStore.EveryInterleavingIsMostRecent`) and answers with the certificate
  stored last (`LeafStore.CacheAnswers`).
- Every 12 to 18 digits are completed to a valid card number by exactly one digit (`Luhn.OneCheckDigit`).

## Where the code and its comments differ

The model follows the code.

- stream.go:31-33 and 105-107 say the flushed prefix splits no finding and is the largest such prefix. One
  pass in list order achieves that when no finding is listed before one that starts inside it and ends
  beyond it (`Cut.PullBackIsLargestSafeCut`); for two findings that condition is exact
  (`Cut.OrderConditionIsExactForPairs`), `[0,10)` then `[8,20)` from boundary 15 breaks it
  (`Cut.SinglePassCanSplit`). In every case a finding is split exactly when one listed before the last to
  lower the boundary straddles that one's start (`Cut.SplitsIffEarlierStraddles`).
- stream.go:25 and 116-118 call MaxBuffer a hard ceiling. It acts only when the cut is pinned to 0; a
  finding that pins it to a small positive position leaves the buffer over the ceiling
  (`StreamTheorems.CeilingExceededIff`, `StreamTheorems.CeilingExceededIffNoSafeCut`), without bound over a
  run (`StreamTheorems.CeilingCanBeExceeded`).
- base64.go:67-70 says a mapped finding always straddles full groups. A finding that ends strictly inside
  a three-byte group, short of the end of the decoded bytes, loses exactly that last group, wherever it
  starts (`Base64View.GroupCoveredIff`).
- normalize.go:44-45 says the redactor still rewrites the original span. A finding that ends strictly inside
  the expansion of a rune leaves that rune uncovered (`Normalize.RuneCoveredIff`); one on the `f` of the
  ligature U+FB01 maps to an empty range (`Normalize.LigatureCanStayUncovered`).
- pipeline.go:192-195 describes the merge as removing the same value found twice. It drops any finding of
  a known type that overlaps an earlier one (`Pipeline.DedupCanUncover`), and the bytes of a dropped finding
  are covered only as far as the others cover them, later ones included (`Pipeline.OfferCoversIff`,
  `Pipeline.LaterOfferCanCover`).

## Model

| member | source | states |
|---|---|---|
| Mask.KeepValid | internal/redactor/mask/mask.go:40-46 | keeps exactly the findings with 0 <= start < end <= len |
| Mask.SortFindings | internal/redactor/mask/mask.go:51-56 | a permutation ordered by start, and by falling end among equal starts |
| Mask.Coalesce | internal/redactor/mask/mask.go:58-67 | the merged ranges are ordered, disjoint blocks: every finding lies in one, and every cut inside a block is crossed by a finding |
| Mask.BlocksAreComponents | internal/redactor/mask/mask.go:58-67 | two findings lie in the same merged range if and only if a chain of findings, each sharing a byte with the next, connects them |
| Mask.Rebuild | internal/redactor/mask/mask.go:69-78 | uncovered bytes in order, one placeholder per block |
| Mask.Redact | internal/redactor/mask/mask.go:35-79 | the output is the declarative mask of the set of valid ranges, so order, duplicates and invalid entries do not matter |
| Mask.RenderSegment | internal/redactor/mask/mask.go:69-78 | masking the slice between two cuts that split no range gives that slice of the whole output |
| Mask.MaskDistributesOverCut | internal/redactor/mask/mask.go:58-78 | redacting both sides of such a cut separately and concatenating redacts the whole |
| Cut.PullBackBounds | internal/pipeline/stream.go:108-114 | the boundary ends at its start value or at some finding's start, never below a cut that is safe for all findings |
| Cut.PullBackIsLargestSafeCut | internal/pipeline/stream.go:101-114 | without ordered crossings the boundary is the largest cut that splits no finding |
| Cut.TidyListsHaveNoOrderedCrossing | internal/pipeline/stream.go:105-114 | pairwise disjoint findings, or findings by non-increasing start, have no ordered crossing |
| Cut.OrderConditionIsExactForPairs | internal/pipeline/stream.go:105-114 | two findings are cut safely from every boundary if and only if they do not cross in list order |
| Cut.SinglePassCanSplit | internal/pipeline/stream.go:108-114 | a concrete list and boundary for which the pass splits a finding |
| Cut.SafeIffSecondPassIsIdle | internal/pipeline/stream.go:108-114 | for every list and boundary: the cut is safe if and only if a second pass would leave it |
| Cut.LastToLowerDecides | internal/pipeline/stream.go:108-114 | the pass ends at the start of the last finding that lowered the boundary, and only findings listed before that one can be split there |
| Cut.SplitsIffEarlierStraddles | internal/pipeline/stream.go:108-114 | for every list and boundary: a finding is split if and only if one listed before the last to lower the boundary straddles its start |
| Cut.HarmlessOrderedCrossing | internal/pipeline/stream.go:108-114 | three findings with an ordered crossing that every boundary cuts safely, so the order condition is not necessary |
| Stream.NewConfig | internal/pipeline/stream.go:43-51 | a non-positive window becomes 4096; a ceiling below the window becomes four windows; other values, the scanner and the redactor are kept |
| Stream.StreamProcessor.constructor | internal/pipeline/stream.go:43-51 | an empty buffer, nothing written, defaulted options |
| Stream.StreamProcessor.Apply | internal/pipeline/stream.go:166-175 | returns the bytes without a redactor or without findings; otherwise the redactor's answer, failure included; the masked bytes under the mask redactor |
| Stream.StreamProcessor.Write | internal/pipeline/stream.go:138-140 | the destination grows by a prefix of the bytes, and by all of them when the write succeeds |
| Stream.StreamProcessor.FlushPrefix | internal/pipeline/stream.go:96-147 | the new buffer, output and log are those of the transition system's flush; a failed redactor or write keeps the buffer |
| Stream.StreamProcessor.FlushFinal | internal/pipeline/stream.go:151-164 | the same for the flush at end of input |
| Stream.StreamProcessor.Pipe | internal/pipeline/stream.go:56-92 | a script of reads of any size, with how the destination takes each write, ends in the state the transition system reaches, early stops included |
| StreamTheorems.Conservation | internal/pipeline/stream.go:56-175 | for any scanner, redactor and destination, over every run: emitted raw segments followed by the buffer are exactly the bytes read; each segment is a prefix of a buffer that held the input from where the last one ended, cut where the flush cuts and redacted with the scanner's findings that end there; the output is the redacted segments in order, up to one write of the next such segment that broke off |
| StreamTheorems.ReadEndIsLate | internal/pipeline/stream.go:61-91 | a read that fails leaves the output and buffer that one that goes on would have left, end of input only adds to them, and an empty read changes nothing |
| StreamTheorems.NoRedactorIsIdentity | internal/pipeline/stream.go:166-169 | without a redactor the output is always a prefix of the input, output and buffer are the input unless the run failed, and a finished run has written all of it |
| StreamTheorems.DisjointFindingsAreSteady | internal/pipeline/stream.go:108-114 | disjoint findings of length at most L leave a safe cut within every L bytes |
| StreamTheorems.SteadyNeverForces | internal/pipeline/stream.go:116-121 | then a ceiling of at least window + L is never forced |
| StreamTheorems.BufferStaysBounded | internal/pipeline/stream.go:96-147 | then over every run the live buffer holds at most window + L - 1 bytes |
| StreamTheorems.CeilingExceededIff | internal/pipeline/stream.go:116-124 | for MaxBuffer >= Window: after a flush the buffer is over MaxBuffer if and only if a finding pins the cut to a positive position below len - MaxBuffer |
| StreamTheorems.CeilingExceededIffNoSafeCut | internal/pipeline/stream.go:101-124 | without ordered crossings: the buffer stays over MaxBuffer if and only if no cut in [len - MaxBuffer, len - Window] is safe and some cut in (0, len - MaxBuffer) is |
| StreamTheorems.CeilingCanBeExceeded | internal/pipeline/stream.go:116-121 | for every redactor, window, ceiling and n there is a run, in reads of two bytes, whose buffer holds n bytes or more |
| StreamTheorems.CutSplitsNoMatch | internal/pipeline/stream.go:101-121 | with a local scanner the cut splits no true match and is within one match length of len - window |
| StreamTheorems.EmissionExtendsMask | internal/pipeline/stream.go:126-145 | writing the masked prefix extends the mask of the whole body up to the cut |
| StreamTheorems.DisjointMatchesSetting | internal/pipeline/stream.go:13-17 | disjoint matches of bounded length with an exact scanner meet the theorem's hypotheses |
| StreamTheorems.StreamingEqualsBuffering | internal/pipeline/stream.go:56-164 | for every chunking the stream finishes and has written the mask of the whole body with all its matches |
| StreamTheorems.EveryRunWritesPrefix | internal/pipeline/stream.go:56-164 | however a run stops (cancelled, failed read, failed write, end of input), what it has written is a prefix of the mask of the whole body |
| Echo.Index | internal/plugin/testdata/echoplugin/main.go:25-28 | the first occurrence at or after an offset, or none |
| Echo.Scan | internal/plugin/testdata/echoplugin/main.go:20-40 | exactly the occurrences of TOKEN, left to right, each with its labels; the reported bytes spell TOKEN |
| Echo.ScanSettled | internal/plugin/testdata/echoplugin/main.go:20-40 | in any slice of a body the scanner is right about everything starting a window of 4 or more before the end |
| Echo.ScanExactAtEnd | internal/plugin/testdata/echoplugin/main.go:20-40 | at the end of the body it is right about everything |
| Echo.EchoSetting | internal/plugin/testdata/echoplugin/main.go:20-40 | the TOKEN scanner meets the hypotheses of the streaming theorem |
| Echo.EchoBufferBounded | internal/pipeline/stream.go:96-147 | with it the live buffer never exceeds window + 4, and a ceiling of window + 5 is never forced |
| Echo.WideWindowsSuffice | internal/pipeline/stream.go:56-164 | window >= 4 and ceiling >= window + 5: streaming equals buffering on every body and chunking |
| Echo.NarrowWindowSplits | internal/pipeline/stream.go:98-101 | a window below 4 lets a TOKEN through on a concrete chunking |
| Echo.LowCeilingSplits | internal/pipeline/stream.go:116-121 | a ceiling below window + 5 cuts a TOKEN at the front of the buffer, for a body that arrives byte by byte |
| Echo.EchoStreamingExactly | internal/pipeline/stream.go:43-164 | streaming equals buffering on all bodies and all chunkings into reads of at most 32 KiB if and only if window >= 4 and ceiling >= window + 5 |
| Views.IdxIsTable | internal/pipeline/decode.go:17-22 | a view's table has one entry more than the view, never decreases, stays in the source and ends at its length |
| Views.LocalBetweenBoundaries | internal/pipeline/normalize.go:29-33 | between two token edges the view is the view of that slice alone |
| Views.UnitViewsAreLocal | internal/pipeline/decode.go:17-31 | with at most one byte per token this holds between any two table entries |
| Views.TokenOfByte | internal/pipeline/decode.go:17-22 | every view byte belongs to a token that starts at an edge |
| Views.StretchCoveredIff | internal/pipeline/pipeline.go:181-188 | a view range that contains a byte of a token maps to source bytes that hold what the byte stands for if and only if it goes on to the end of the token or to a byte that stands for a later stretch |
| Views.FindSpans | internal/pipeline/comment_strip.go:42-42 | the regular-expression search: the spans, leftmost first, not overlapping |
| Views.CopyTo | internal/pipeline/comment_strip.go:52-55 | copies the bytes up to the next span and records their offsets |
| UrlDecode.HexValueIsPlace | internal/pipeline/decode.go:54-64 | exactly the sixteen digits of both cases have a value, their place in the table |
| UrlDecode.Decode | internal/pipeline/decode.go:32-52 | the loop computes the decoded view and its table |
| UrlDecode.DecodingIsLocal | internal/pipeline/decode.go:17-52 | decoding src[idx[a]:idx[b]] alone gives decoded[a:b], for all a <= b; the table is strictly increasing |
| UrlDecode.DecodeInvertsEncode | internal/pipeline/decode.go:32-52 | decoding inverts every encoding that escapes at least each literal percent sign |
| UrlDecode.MalformedPassesThrough | internal/pipeline/decode.go:13-15 | a body without a well-formed escape is its own decoding |
| UrlDecode.FirstEscapeDecodes | internal/pipeline/decode.go:32-52 | the leftmost well-formed escape yields its byte, what precedes it stays, malformed escapes included, and the rest is decoded on its own |
| UrlDecode.NoPercentNoChange | internal/pipeline/decode.go:5-11 | without a percent sign the view is the body, so the pre-check loses nothing |
| CommentStrip.ContainsSlashStar | internal/pipeline/comment_strip.go:21-28 | true exactly when an opening mark occurs |
| CommentStrip.DropSpans | internal/pipeline/comment_strip.go:47-64 | the loops copy exactly what is outside the comments, with its offsets |
| CommentStrip.Strip | internal/pipeline/comment_strip.go:38-70 | the stripped view and table, or the source without a table when nothing changed |
| CommentStrip.StrippingIsLocal | internal/pipeline/comment_strip.go:34-69 | stripping src[idx[a]:idx[b]] alone gives out[a:b], for all a <= b, unterminated comments included; the table is strictly increasing |
| CommentStrip.FirstCommentGoes | internal/pipeline/comment_strip.go:17-17 | the leftmost comment, up to its earliest closing mark, disappears and the rest is stripped on its own |
| CommentStrip.UnterminatedStays | internal/pipeline/comment_strip.go:17-17 | if no opening mark is ever closed, nothing is removed |
| CommentStrip.NoOpeningNoChange | internal/pipeline/comment_strip.go:39-41 | without an opening mark the view is the body |
| Normalize.ContainsNonASCII | internal/pipeline/normalize.go:13-20 | true exactly when a byte of 0x80 or more occurs |
| Normalize.Rewrite | internal/pipeline/normalize.go:53-73 | the rune loop computes the normalised view and its table |
| Normalize.Normalized | internal/pipeline/normalize.go:46-83 | that view and table, or the source without a table when nothing changed |
| Normalize.AsciiUnchanged | internal/pipeline/normalize.go:47-51 | pure ASCII is left alone, so the pre-check loses nothing |
| Normalize.RuneStepIsLocal | internal/pipeline/normalize.go:57-65 | which rune starts at a position does not depend on the bytes behind it |
| Normalize.RuneIffCharacter | internal/pipeline/normalize.go:57-63 | a rune is read exactly where the UTF-8 encoding of a character stands |
| Normalize.RuneSpellsCharacter | internal/pipeline/normalize.go:57-63 | the bytes of a rune are the encoding of the character they spell |
| Normalize.IllFormedStays | internal/pipeline/normalize.go:58-63 | a byte that starts no character stays, maps to itself, and is held by every mapped range that reports it |
| Normalize.CharacterIsNormalised | internal/pipeline/normalize.go:56-73 | a well-formed character, between any bytes, is replaced by its normal form, all of whose bytes map to its start |
| Normalize.RuneCoveredIff | internal/pipeline/normalize.go:44-73 | for every body, rune and view range that contains a byte of its normal form: the mapped range holds the rune if and only if the view range goes on to the end of that form |
| Normalize.LigatureCanStayUncovered | internal/pipeline/normalize.go:44-73 | the table of U+FB01 alone: a finding on its first letter maps to an empty range |
| Base64.LetterIsPlace | internal/pipeline/base64.go:46-58 | the letters are those of the table in section 4 of RFC 4648 |
| Base64.SextetIsPlace | internal/pipeline/base64.go:46-58 | a byte stands for v if and only if it is the letter at place v; no other byte stands for anything |
| Base64.DecodeInvertsEncode | internal/pipeline/base64.go:105-105 | decoding inverts the RFC 4648 encoding |
| Base64.WholeGroupsDecode | internal/pipeline/base64.go:98-106 | letters and at most two pads in whole groups always decode, to three bytes per group less the pads |
| Base64.DecodesIff | internal/pipeline/base64.go:105-105 | decoding succeeds if and only if the text is whole groups of letters whose last may end in one or two pads |
| Base64.DecodedByte | internal/pipeline/base64.go:105-105 | every decoded byte, of padded groups and with spare bits too, is made of the bits of its two letters |
| Base64View.IsMostlyPrintable | internal/pipeline/base64.go:142-153 | true exactly when the positions of printable bytes are at least seven tenths of a non-empty text |
| Base64View.PrintableIff | internal/pipeline/base64.go:142-153 | printable are tab, line feed, carriage return and everything from space to tilde |
| Base64View.ContainsCandidate | internal/pipeline/base64.go:31-44 | true exactly when sixteen alphabet bytes occur in a row |
| Base64View.NoRunNoChange | internal/pipeline/base64.go:28-44 | without such a run the view is the body |
| Base64View.CandidateIffSixteen | internal/pipeline/base64.go:25-44 | a candidate starts exactly where sixteen alphabet bytes do; fifteen are left alone |
| Base64View.CandidateIsLongest | internal/pipeline/base64.go:25-26 | a candidate is the whole run and the pads behind it, at most two |
| Base64View.CandidatesDecode | internal/pipeline/base64.go:95-106 | every candidate whose length is divisible by four decodes without error |
| Base64View.EmitCandidate | internal/pipeline/base64.go:97-120 | the decoded bytes with their group offsets, or the candidate verbatim |
| Base64View.OneCandidate | internal/pipeline/base64.go:85-123 | copies up to a candidate and emits it |
| Base64View.DecodeCandidates | internal/pipeline/base64.go:80-130 | the whole view and table; the view is shorter than the source if anything was decoded and equal to it otherwise |
| Base64View.DecodeView | internal/pipeline/base64.go:74-136 | that view and table, or the source without a table when nothing was decoded |
| Base64View.FirstCandidate | internal/pipeline/base64.go:80-130 | the first candidate is replaced if its length is divisible by four and it decodes to mostly printable bytes, each mapped to its group, and stays, each byte mapped to itself, otherwise; what precedes it stays and the rest is decoded on its own |
| Base64View.EncodedTextIsRecovered | internal/pipeline/base64.go:74-136 | the encoding of 12 or more mostly printable bytes, between bytes that cannot extend it, is replaced by exactly those bytes; byte x maps to group x/3 and the entry behind them to the end of the encoding |
| Base64View.GroupCoveredIff | internal/pipeline/base64.go:67-70 | for every body, accepted candidate and view range that contains decoded byte k: the mapped range holds the group of byte k if and only if the view range goes on to the end of the decoded bytes or ends in a later group |
| Base64View.VerbatimCovered | internal/pipeline/base64.go:85-120 | bytes outside candidates, and those of rejected ones, stay and are held by every mapped range that reports them |
| Base64View.EncodedGroupCoveredIff | internal/pipeline/base64.go:67-70 | the same for an encoded text and a finding inside the recovered text |
| Stitch.MaximalIff | internal/pipeline/stitch.go:30-33 | a joined run is maximal if and only if the bytes around it are not members |
| Stitch.JoinedIff | internal/pipeline/stitch.go:30-33 | a joined run starts and ends with an eligible byte, holds only eligible bytes and whitespace, and no two bytes of whitespace in a row |
| Stitch.EligibleIff | internal/pipeline/stitch.go:48-73 | the broad class is letters, digits and the characters . _ - + @, the narrow one is the same without letters |
| Stitch.SpaceIff | internal/pipeline/stitch.go:75-77 | whitespace is space and tab |
| Stitch.TwelveDecides | internal/pipeline/stitch.go:142-152 | inside a maximal run whitespace goes if and only if the run is twelve bytes or longer |
| Stitch.RatioIsImplied | internal/pipeline/stitch.go:147-147 | single whitespace leaves more than half of a run eligible, so the ratio gate never decides |
| Stitch.Flush | internal/pipeline/stitch.go:142-152 | closing a run adds it to the regions exactly when it is long enough |
| Stitch.FindRegions | internal/pipeline/stitch.go:137-185 | exactly the maximal runs of eligible bytes joined by single spaces or tabs of 12 bytes or more, left to right and apart |
| Stitch.ContainsSpaceOrTab | internal/pipeline/stitch.go:75-77 | true exactly when a space or tab occurs |
| Stitch.DropInner | internal/pipeline/stitch.go:102-126 | keeps every byte except whitespace inside regions, with its offset |
| Stitch.StitchByEligible | internal/pipeline/stitch.go:93-132 | the stitched view and table, or the source without a table when nothing changed |
| Stitch.NoSpaceNoChange | internal/pipeline/stitch.go:94-96 | without a space or tab the view is the body |
| Stitch.OnlyInnerSpacesGo | internal/pipeline/stitch.go:112-119 | kept offsets ascend, and exactly the spaces and tabs inside regions are left out |
| Stitch.StitchedRangeIsSource | internal/pipeline/stitch.go:93-132 | between the two mapped ends of any view range stand exactly its own bytes, each at its offset, and dropped whitespace |
| Stitch.RegionsNest | internal/pipeline/stitch.go:16-28 | every region of a narrower eligibility lies inside a region of a wider one |
| Stitch.DigitStitchRemovesLess | internal/pipeline/stitch.go:79-89 | every byte the digit stitch removes the whitespace stitch removes too |
| FanOut.ProgressByTurns | internal/pipeline/pipeline.go:230-237 | a goroutine's progress depends only on its own turns, and it fills only its own slot |
| FanOut.WaitEndsIff | internal/pipeline/pipeline.go:229-238 | the wait ends if and only if every goroutine had its two steps |
| FanOut.EverySchedule | internal/pipeline/pipeline.go:227-248 | under every schedule that ends, the collected result is the scanner-order result |
| FanOut.ScanWith | internal/pipeline/pipeline.go:218-249 | the same for the program, empty bodies and scanner lists included |
| FanOut.OneScanner | internal/pipeline/pipeline.go:218-249 | one scanner gives its own findings and errors, and nothing on an empty body |
| FanOut.ScannersInParts | internal/pipeline/pipeline.go:240-248 | the result of two lists of scanners one after the other is the findings of the first, then those of the second, and the errors likewise |
| FanOut.FoundIff | internal/pipeline/pipeline.go:240-248 | a finding is in the result if and only if some scanner reports it |
| Pipeline.OverlapsExisting | internal/pipeline/pipeline.go:207-214 | true exactly when a known finding duplicates the new one |
| Pipeline.DuplicatesIff | internal/pipeline/pipeline.go:207-214 | findings duplicate each other if and only if they are of one type and share a byte, or one is empty and stands strictly inside the other |
| Pipeline.KnownIff | internal/pipeline/pipeline.go:207-214 | among findings that are not empty: known if and only if one of the same type shares a byte |
| Pipeline.MergeNew | internal/pipeline/pipeline.go:196-203 | the loop computes the merge |
| Pipeline.AllOffersKeptIff | internal/pipeline/pipeline.go:196-214 | a merge appends all offers in order if and only if none shares a byte with an earlier finding of its type |
| Pipeline.TouchingAreKept | internal/pipeline/pipeline.go:207-214 | findings that touch or lie apart are both kept, of one type or not |
| Pipeline.MergeKeeps | internal/pipeline/pipeline.go:192-203 | old findings stay in front, each added one duplicates none before it, each offered one is kept or duplicates one in the result |
| Pipeline.MergeInParts | internal/pipeline/pipeline.go:196-203 | merging a concatenation is merging its parts in turn |
| Pipeline.OfferCoversIff | internal/pipeline/pipeline.go:192-203 | for every offer anywhere in a list: its bytes end up covered if and only if it duplicates nothing merged by then, or the others cover them without it |
| Pipeline.LaterOfferCanCover | internal/pipeline/pipeline.go:192-214 | a concrete list: an offer that duplicates, and was not covered, is covered by a later one of another type |
| Pipeline.MergeCoversByteIff | internal/pipeline/pipeline.go:196-214 | a byte is covered after a merge if and only if it was before or an offer that is kept covers it |
| Pipeline.DedupCanUncover | internal/pipeline/pipeline.go:192-214 | a concrete pair: a short finding hides a longer one of the same type, whose other bytes stay uncovered |
| Pipeline.CompactInPlace | internal/pipeline/pipeline.go:180-188 | translating and moving down in place leaves exactly the findings of the view, translated, in order |
| Pipeline.MappedInBounds | internal/pipeline/pipeline.go:181-188 | through a well-shaped table a finding lands inside the body, possibly empty |
| Pipeline.TransformedPass | internal/pipeline/pipeline.go:169-190 | nothing for an unchanged view, otherwise its findings mapped back, as spelled out by the rows of Remapping |
| Remapping.UrlTranslates | internal/pipeline/decode.go:17-31 | the source range of a finding in the URL view, decoded on its own, is the reported stretch of the view |
| Remapping.CommentsTranslate | internal/pipeline/comment_strip.go:34-69 | the same for stripped comments |
| Remapping.StitchTranslates | internal/pipeline/stitch.go:93-132 | the source range of a finding in a stitched view holds the reported bytes, each at its offset, and else only dropped whitespace |
| Remapping.Base64Translates | internal/pipeline/base64.go:60-70 | the source range of a finding in the base64 view holds the group of a reported byte exactly when the finding goes on to the end or into a later group, and every reported byte that was copied |
| Remapping.NfkcTranslates | internal/pipeline/normalize.go:35-45 | the source range of a finding in the NFKC view holds a rune exactly when the finding goes on to the end of its normal form, and every reported byte that starts no character |
| Remapping.TranslateIsRight | internal/pipeline/pipeline.go:180-188 | whatever the pass, a finding inside the view gets the right source range and keeps its labels |
| Remapping.ContributionIsRight | internal/pipeline/pipeline.go:169-190 | a pass contributes nothing for an unchanged view; otherwise one offer for each finding, inside the view, of the scanners that opted in, in order, each rightly mapped, and their errors |
| Remapping.InsideIff | internal/pipeline/pipeline.go:182-184 | a finding is mapped if and only if 0 <= start < end <= length of the view |
| Pipeline.ViewIsTable | internal/pipeline/pipeline.go:175-188 | all six transforms produce well-shaped tables |
| Pipeline.Guard | internal/pipeline/pipeline.go:122-146 | a pre-check that says no means the view is the body |
| Pipeline.RunPass | internal/pipeline/pipeline.go:122-159 | a pass contributes what its view yields |
| Pipeline.GuardedPass | internal/pipeline/pipeline.go:122-159 | a guarded pass adds what the unguarded pass would |
| Pipeline.NobodyWilling | internal/pipeline/pipeline.go:109-120 | with no willing scanner, or no body, the passes add nothing |
| Pipeline.Select | internal/pipeline/pipeline.go:41-47 | the scanners that accept transforms, in order, as the next three rows spell out |
| Pipeline.WillingIff | internal/pipeline/pipeline.go:41-47 | a scanner sees the views if and only if it is in the list and opts in |
| Pipeline.WillingInParts | internal/pipeline/pipeline.go:41-47 | the choice is made scanner by scanner and keeps their order |
| Pipeline.DeclineOrAccept | internal/pipeline/pipeline.go:99-120 | if every scanner declines, the scan is the raw pass; if every scanner accepts, each pass scans its view with all of them |
| Pipeline.Scan | internal/pipeline/pipeline.go:108-163 | pre-checks and shortcuts change nothing: the result is that of running all six passes unconditionally, for every body, scanner list and fair schedule |
| Pipeline.ScanKeeps | internal/pipeline/pipeline.go:94-163 | raw findings are a prefix, each later one lies in the body and duplicates none before it, and each mapped finding is kept or duplicates one in the result |
| Pipeline.ScanMergesOffers | internal/pipeline/pipeline.go:108-163 | the passes amount to one merge of everything they find into the raw findings |
| Pipeline.SixPasses | internal/pipeline/pipeline.go:121-161 | the scan is the raw findings merged with those of the URL, NFKC, base64, comment, whitespace and digit passes over their views, in this order, and the raw errors followed by theirs |
| Pipeline.ScanCoversByteIff | internal/pipeline/pipeline.go:108-163 | a byte is covered after the scan if and only if a valid raw finding covers it, or a pass found a range with it that duplicates nothing merged before |
| Pipeline.Process | internal/pipeline/pipeline.go:257-269 | without findings or a redactor the body passes and only scan errors are reported; a failing redactor passes the body and adds its error; otherwise the body is the redactor's answer, under the mask redactor the mask of the findings |
| LeafStore.Store.constructor | internal/ca/store.go:51-71 | an empty cache with map and list in agreement |
| LeafStore.Store.CacheGet | internal/ca/store.go:131-143 | a hit returns the kept certificate and moves its host to the front; map and list stay in agreement |
| LeafStore.Store.CachePut | internal/ca/store.go:145-166 | the host comes to the front, the oldest go until the rest fit; map and list stay in agreement |
| LeafStore.Store.LeafFor | internal/ca/store.go:76-87 | the cached certificate, or one signed for the key, or failure, which leaves the cache as it was |
| LeafStore.Store.CacheLen | internal/ca/store.go:169-173 | the length of the list is the number of cached hosts, within the capacity |
| LeafStore.RecencyIsByLastRequest | internal/ca/store.go:26-30 | the reference list holds every requested key once, by falling time of its last request |
| LeafStore.CacheIsMostRecent | internal/ca/store.go:76-87 | after any run of successful requests the cache is exactly the most recently requested distinct keys that fit, in that order |
| LeafStore.LargerCacheHoldsMore | internal/ca/store.go:145-166 | a smaller cache's keys are the front of a larger one's |
| LeafStore.EveryInterleaving | internal/ca/store.go:76-166 | under every interleaving of lookups, signings and stores the cache stays within capacity, one entry per host, and every kept or returned certificate was signed for that host |
| LeafStore.EveryInterleavingIsMostRecent | internal/ca/store.go:76-166 | under every interleaving, failed signings included, the cache is exactly the keys of the most recent hits and stores, distinct, as many as fit, in that order |
| LeafStore.CacheAnswers | internal/ca/store.go:76-166 | under every interleaving the cache answers for exactly the most recently used hosts that fit, with the certificate stored last for the host |
| LeafStore.LookupAfterPut | internal/ca/store.go:145-166 | after a store a lookup of the host finds the stored certificate, also where another was cached; other hosts keep theirs or are evicted |
| LeafStore.LookupAfterGet | internal/ca/store.go:131-143 | a hit changes no answer |
| LeafStore.SoloRequest | internal/ca/store.go:76-87 | a request that runs alone does in its steps what one call does, to the cache and in its answer |
| Luhn.LuhnValid | internal/scanner/pii/pii.go:108-132 | the loop accepts exactly 13 to 19 digits whose sum over the places, counted from the right with every second digit doubled and its digits added up, is a multiple of ten |
| Luhn.SumIsTotal | internal/scanner/pii/pii.go:113-127 | the recursive checksum is the sum over the places from the right |
| Luhn.TwoMoreDigits | internal/scanner/pii/pii.go:117-127 | two more digits on the right add the digits of twice the first, and the second |
| Luhn.OneCheckDigit | internal/scanner/pii/pii.go:108-132 | 12 to 18 digits become valid with exactly one further digit, what their sum over the places lacks to a multiple of ten |
| Luhn.DigitsReadBack | internal/scanner/pii/pii.go:113-117 | digits written out in decimal are read back |
| Luhn.SeparatorsIgnored | internal/scanner/pii/pii.go:114-116 | inserting bytes that are not digits changes nothing |
| Luhn.SingleChangeCaught | internal/scanner/pii/pii.go:117-131 | every change of one digit of a valid number is rejected |
| Luhn.SwapUnnoticedIff | internal/scanner/pii/pii.go:117-131 | swapping neighbours of a valid number stays valid if and only if they are equal or 0 and 9 |
| Presidio.CharToByteMap | packaging/python-presidio-plugin/src/tgproxy_presidio/scanner.py:59-73 | entry i is the length in bytes of the first i characters |
| Presidio.MappedBytesAreTheText | packaging/python-presidio-plugin/src/tgproxy_presidio/scanner.py:59-73 | the bytes between two mapped offsets encode the characters between the two |
| Presidio.FastPathAgrees | packaging/python-presidio-plugin/src/tgproxy_presidio/scanner.py:205-216 | byte and character counts agree if and only if every offset maps to itself |

## Left out

- Detector rules (pii, secrets, sqli, code), their regular expressions and the entropy test: scanners are parameters.
- The Unicode NFKC tables: the per-rune normal form is a parameter that leaves ASCII alone.
- HTTP serving, CONNECT tunnelling, TLS interception, header copying, configuration, the registries, the CLI and the plugin wire protocol.
- Certificate generation and signing: a certificate is the host it was signed for and a serial number; host normalisation is done by the caller.
- The Presidio engine itself, and the plugin's answer of no findings for bodies that are not UTF-8.
- Contexts, hints and finding metadata are not part of this model; errors.Join is the list of joined messages.
- Stream.StreamProcessor.Pipe: the flusher calls are not modelled; cancellation is a script of reads that stops short of end of input, and a script may also hold reads larger than the 32 KiB buffer.
- Cut.PullBackIsLargestSafeCut: the order condition is sufficient but not necessary for lists of three or more findings, because an earlier one can take the boundary below a crossing (`Cut.HarmlessOrderedCrossing`); the exact statements are `Cut.OrderConditionIsExactForPairs` and, over the pass, `Cut.SplitsIffEarlierStraddles`.
- Mask.SortFindings: the library sort is replaced by insertion; only that it yields an ordered permutation is used.
- Base64View.IsMostlyPrintable: the floating-point ratio test is the integer test 10 n >= 7 len; the two can differ only for texts far beyond any memory.
- Views.FindSpans: the two regular expressions are explicit scans, sixteen or more letters with up to two pads, and an opening mark up to the earliest closing mark.
- LeafStore.Store.CachePut: list elements are values held in both the map and the list, so the pointer they share in the source is not modelled, and a certificate update writes both.
- Pipeline.Scan: the six fan-outs use one schedule parameter, which loses nothing because the result does not depend on it.
