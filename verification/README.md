# A verified model of CodeGloss

CodeGloss shows a Japanese gloss of the comments in a source file while an editor has it open. This
project models the parts of it where something can silently go wrong, in Dafny, and proves what those
parts promise. `dafny verify dfyconfig.toml` checks all of it.

- **The gloss pipeline.** A comment is read into blank lines, copied lines and units of prose
  (`Markers`, `Examples`, `DocBlock`, `Rebuild`); what must not be translated is hidden behind
  placeholders (`Preserve`, `Protect`, `Masking`); the masked prose is cut into sentences (`Sentence`);
  `Decorations`, `Leads`, `Shapes`, `SpanRules` and `Boundaries` say what each of these does to the characters
  of a comment, without naming how it is computed;
  an engine answers each of them; spans, sentences and structure are put back (`UnitPlan`, `GlossPlan`).
  `DocTheorems` and `GlossTheorems` say what the way through keeps: an engine that changes nothing gives
  the comment back exactly when stated conditions hold, and an engine that answers anything at all cannot
  lose a protected span, a tag or a line of code. `Samples` reads three comments from their characters.
- **Beam search.** `BeamModel` is the search for one segment, over the log probabilities of a source and
  a whole prefix. `BeamSearch` is the batch: rows that join and leave, a key-value cache that is moved
  with them, padding, sorting, chunking and scattering back. It is proved equal, segment by segment, to
  the search of `BeamModel`. `BeamTheorems` says what that search does, `Greedy` how one of width one
  compares with greedy decoding.
- **The worker and its caches.** `GlossKey` is the stream a cache key is hashed from, `GlossCache` the
  two-level cache, equal to a recency list; `CacheTheorems` is about runs of it. `Jobs` collects jobs and
  leaves out what is cached, `Slots` asks for each segment once, `Batch` is one batch of the worker as it
  is written; `Worker` is the worker beside the request handlers, as an interleaving of small steps.
- **Comments in a file.** `Runs` folds line comments into blocks, `Blocks` says which comments share one and what
  it reads; `Fences` says exactly when it and the reader
  of a block agree where a fence is open. `Positions` converts between UTF-16 coordinates and UTF-8 offsets,
  `Documents` finds the comment under a position, `Extracted` shows that the blocks of `Runs` are what it
  takes for that to be right.
- **The log.** `Calendar` and `Timestamp` print an instant, which is what the text reads as, `Filter` decides what is written.

Text is a sequence of Unicode scalar values. White space is Unicode's own property; what is alphanumeric
or upper case, and how levels are spelled, are parameters, so the theorems hold for any such tables.

## Where the code and its documentation differ

The model does what the code does. Some promises in comments do not hold of it:

- `candle.rs:896-903` says a finished hypothesis beats a running one whatever they score. The code ranks
  both together. `BeamTheorems.UnendedAnswer` says exactly when a sentence the model never ended is
  answered, and `BeamTheorems.RunningBeatsFinished` is an instance at the shipped budget.
- `candle.rs:762-765` says a search one wide is greedy decoding. It also stops where only the runner-up
  ends the sentence. `Greedy.GreedyExactlyWhen` says exactly when the two answers are the same,
  `Greedy.GreedyFails` is an instance at the shipped budget.
- `cache.rs:119-122` says a gloss whose write the store refuses is still in memory and still correct.
  Once it has left memory the store answers with the value it held before
  (`CacheTheorems.RefusedWriteGoesStale`); `CacheTheorems.AnswersLatest` says exactly when the last value
  is answered. The server only ever inserts one value under a key, so it does not see this.
- `model.rs:110-113` says no two lists of fields give the same stream. `model.rs:149-150` adds what that takes,
  that no NUL appears in a language tag or a model version (`GlossKey.KeysDiffer`). Nothing checks it of a
  version; `GlossKey.VersionsCollide` says exactly which pairs of versions share a key.
- `docblock.rs:581-594` says `sources()` are the English of each segment, and the test at `docblock.rs:1707-1722`
  that handing them in as translations gives `source()`. Their placeholders are read, so a sentence whose English
  names all of its spans by placeholders of others comes back changed. `GlossTheorems.SourcesRestored` says
  exactly when the source comes back, `Samples.NamesAreSwapped` is a comment that does not.
- `extract.rs:282-285` says parser and reader judge fences by one answer. They do, line by line, but a reader in
  an `@example` body reads a fence line as part of it, and the parser opens a fence there
  (`Samples.FenceInExample`). `Fences.FencesAgree` says exactly when the two agree.

Reading a comment and printing it again keeps all of its text, white space aside, but for one thing that
`docblock.rs:617-621` means to be so: a comment inside an example that goes on over several lines under one
lead comes back as one line, with that lead once. `DocTheorems.SourceKeepsText` is the condition,
`Samples.RepeatedLeadIsLost` a comment where it bites.

## Model

| member | source | states |
|---|---|---|
| `BeamModel.AlwaysAnswered` | crates/codegloss-translator/src/candle.rs:896-915 | after any number of steps a segment has a hypothesis, running or finished, so the error for none is unreachable |
| `BeamModel.RunRooted` | crates/codegloss-translator/src/candle.rs:809-893 | at every step all running hypotheses have one length, every score is the sum of the log probabilities along its tokens, and no end token is ever extended |
| `BeamModel.SumIs` | crates/codegloss-translator/src/candle.rs:1007-1032 | such a sum is minus infinity exactly where one of the tokens is forbidden, and the total of their log probabilities otherwise |
| `BeamModel.AnswerRooted` | crates/codegloss-translator/src/candle.rs:129-129 | an answer is the start token and at most the budget of tokens, none of them an end |
| `BeamSearch.BestOf` | crates/codegloss-translator/src/candle.rs:1007-1032 | returns the wanted best continuations over all rows of a segment, best first |
| `BeamSearch.BestProject` | crates/codegloss-translator/src/candle.rs:1007-1032 | the candidates of a segment ranked inside a batch are those it ranks alone |
| `BeamSearch.AdvanceSegment` | crates/codegloss-translator/src/candle.rs:846-881 | one segment's share of a batch step is one step of its own search, and the parents returned are the rows it continues |
| `BeamSearch.StepBatch` | crates/codegloss-translator/src/candle.rs:843-884 | a batch step advances every segment by one step of its own search, whoever has left the batch |
| `BeamSearch.Decoder.Reset` | crates/codegloss-translator/src/marian.rs:237-239 | the cache is empty |
| `BeamSearch.Decoder.Forward` | crates/codegloss-translator/src/candle.rs:956-985 | a row is answered for what its cache holds and the token fed, which is then cached with the source it was read against; past the end of the position table there is no answer |
| `BeamSearch.Decoder.Reorder` | crates/codegloss-translator/src/marian.rs:241-253 | row i of the cache afterwards is what row parents[i] held |
| `BeamSearch.CacheMoves` | crates/codegloss-translator/src/candle.rs:889-893 | after the cache is moved by the parents, each row holds its own hypothesis without its last token, all of it computed against its own source |
| `BeamSearch.RowsAgree` | crates/codegloss-translator/src/candle.rs:812-841 | the log probabilities of the incremental decode are those of re-reading each whole prefix against its own source |
| `BeamSearch.UnmaskedPad` | crates/codegloss-translator/src/candle.rs:714-735 | the mask takes exactly the padding off a source again |
| `BeamSearch.Engine.Search` | crates/codegloss-translator/src/candle.rs:784-916 | every segment of a batch is answered as its own search answers it, through early departures; the batch fails exactly when some segment's own search runs past the position table |
| `BeamSearch.Engine.PadGroup` | crates/codegloss-translator/src/candle.rs:714-735 | rows of one width, each its own source and padding behind it; what the mask leaves of each is the source, with or without a mask |
| `BeamSearch.Engine.TranslateGroup` | crates/codegloss-translator/src/candle.rs:708-758 | a group is answered text by text as each would be alone, and fails exactly when one of them would |
| `BeamSearch.Engine.LongestComeFirst` | crates/codegloss-translator/src/candle.rs:671-675 | no job comes before a longer one |
| `BeamSearch.Engine.Tokenize` | crates/codegloss-translator/src/candle.rs:688-705 | source tokens are all that a text is encoded to, or as many as the position table has room for beside an end token, and one end token behind them unless they end in one |
| `BeamSearch.OneInput` | crates/codegloss-translator/src/candle.rs:688-705 | that is one list; a text whose tokens fit goes in whole |
| `BeamSearch.Engine.Translate` | crates/codegloss-translator/src/candle.rs:653-685 | batch independence: entry i is what segment i translates to alone, for every list and beam width: what the search makes of all of that segment's tokens that fit; it fails exactly when some segment alone would |
| `BeamTheorems.TopKIsTop` | crates/codegloss-translator/src/candle.rs:1024-1031 | what is kept is sorted, comes from the candidates, and nothing left out is better than anything kept |
| `BeamTheorems.BeamWidth` | crates/codegloss-translator/src/candle.rs:853-881 | with one end token and a vocabulary of two beams or more, a segment still running has exactly `beams` rows after every step |
| `BeamTheorems.UnendedAnswer` | crates/codegloss-translator/src/candle.rs:896-915 | the answer is unended exactly when, the budget spent, some running hypothesis is beaten by no finished one |
| `BeamTheorems.EndedEarly` | crates/codegloss-translator/src/candle.rs:867-871 | a segment that leaves before the budget is spent is answered by an ended sentence |
| `BeamTheorems.AnswerIsBest` | crates/codegloss-translator/src/candle.rs:404-411 | the answer's score, multiplied out against the length of any other hypothesis, finished or running, is no less than its; of equals the last is taken |
| `BeamTheorems.RunningBeatsFinished` | crates/codegloss-translator/src/candle.rs:896-915 | at the shipped budget of 512 tokens, models, log-softmaxes among them, whose answer is a sentence they never ended, while one they did end stands by |
| `Greedy.LikeliestToken` | crates/codegloss-translator/src/candle.rs:762-765 | greedy decoding takes the likeliest next token of a possible hypothesis |
| `Greedy.TwoBest` | crates/codegloss-translator/src/candle.rs:1007-1032 | what a search one wide ranks is the likeliest continuation and the next, the first of equals first |
| `Greedy.WidthOne` | crates/codegloss-translator/src/candle.rs:853-881 | a search one wide stops where either of the two ends the sentence, with all it has finished being that sentence, and takes the likeliest otherwise |
| `Greedy.GreedyExactlyWhen` | crates/codegloss-translator/src/candle.rs:762-765 | the answer of a search one wide is greedy decoding's exactly when, wherever that stands before its end or the budget's, a runner-up that ends the sentence comes with a likeliest token that does |
| `Greedy.GreedyFails` | crates/codegloss-translator/src/candle.rs:762-765 | at the shipped budget, models, log-softmaxes among them, for which the two answers differ |
| `Preserve.PlaceholderExactlyWhen` | crates/codegloss-core/src/preserve.rs:51-63 | a placeholder is read exactly where an X, digits and a Q stand and their number fits an index; it is that number and that length |
| `Preserve.ParseIsValue` | crates/codegloss-core/src/preserve.rs:51-63 | digit by digit parsing with overflow gives the number a numeral stands for, or fails exactly when it is too large |
| `Preserve.PlaceholderReadsBack` | crates/codegloss-core/src/preserve.rs:44-63 | a printed placeholder reads back as its index and length, whatever follows it |
| `Preserve.Substitute` | crates/codegloss-core/src/preserve.rs:206-230 | one pass gives the restored text and marks exactly the spans whose placeholders it met |
| `Preserve.RestoredAppend` | crates/codegloss-core/src/preserve.rs:206-230 | restoring is piecewise wherever no placeholder straddles the cut |
| `Preserve.MetIsRestored` | crates/codegloss-core/src/preserve.rs:206-230 | every span a text names is in what it is restored to |
| `Protect.BracedSpanIff` | crates/codegloss-core/src/preserve.rs:412-430 | a braced construct ends exactly where its braces are all closed for the first time, on one line |
| `Protect.FindBraced` | crates/codegloss-core/src/preserve.rs:412-430 | the loop over the braces finds that end |
| `Protect.UrlSpanIff` | crates/codegloss-core/src/preserve.rs:333-361 | a URL is a scheme and something behind it, up to the first character that stops one, without the punctuation in front of that - exactly |
| `Protect.FindUrl` | crates/codegloss-core/src/preserve.rs:341-361 | the loop finds that span |
| `Protect.IdentifierSpanIff` | crates/codegloss-core/src/preserve.rs:473-529 | an identifier is words joined by `.` or `::` as far as they go, with the parentheses of a call, that carries a mark prose does not use - exactly |
| `Protect.FindIdentifier` | crates/codegloss-core/src/preserve.rs:473-505 | the loop finds that span |
| `Protect.SpanIsTrimmed` | crates/codegloss-core/src/preserve.rs:285-314 | a protected span neither begins nor ends in white space, by whichever rule |
| `Masking.MaskText` | crates/codegloss-core/src/preserve.rs:248-281 | the cursor loop builds the masked text and the table of the spans found left to right, which `SpanRules.MaskIsAScan` says are all that the rules claim |
| `SpanRules.InlineCodeIff` | crates/codegloss-core/src/preserve.rs:320-327 | inline code is exactly a pair of back quotes on one line with none between them |
| `SpanRules.LinkIff` | crates/codegloss-core/src/preserve.rs:333-361 | a URL, with the characters that end one and those that do not belong to its end named |
| `SpanRules.DocTagIff` | crates/codegloss-core/src/preserve.rs:433-436 | a doc tag is exactly an `@` and all the letters behind it |
| `SpanRules.InlineDocTagIff` | crates/codegloss-core/src/preserve.rs:388-393 | an inline tag is exactly a balanced pair of braces on one line with a doc tag behind the first |
| `SpanRules.AttentionIff` | crates/codegloss-core/src/preserve.rs:456-466 | an attention marker is exactly one of the words, an owner in the first parentheses or none, and a colon |
| `SpanRules.IdentifierIff` | crates/codegloss-core/src/preserve.rs:473-529 | an identifier is exactly a token that goes as far as it can and has a mark of code at some place in it |
| `SpanRules.SpanIff` | crates/codegloss-core/src/preserve.rs:285-314 | at a place exactly the first rule that claims characters has its way, rules about words only where no word character stands in front; nothing is protected exactly where none claims any |
| `SpanRules.MaskIsAScan` | crates/codegloss-core/src/preserve.rs:248-281 | masking is one scan of the text: what a rule claims where the scan comes to it is hidden, by the first that does, and what is copied none claims |
| `Masking.CopiedIsNoPlaceholder` | crates/codegloss-core/src/preserve.rs:248-281 | no placeholder begins on a copied character, not even across one that is inserted |
| `Masking.MaskingIsUndone` | crates/codegloss-core/src/preserve.rs:164-281 | unmasking the masked text gives the text, and the pass meets every placeholder once, in order |
| `Masking.UnmaskFragmentText` | crates/codegloss-core/src/preserve.rs:185-198 | the fragment is restored if its translation keeps its placeholders, and falls back to its English otherwise |
| `Protect.SpanOrName` | crates/codegloss-core/src/preserve.rs:285-314 | by whichever rule it was found, a protected span and a placeholder are the same or differ at a place both have |
| `Masking.RestoredSame` | crates/codegloss-core/src/preserve.rs:206-230 | restoring leaves a text alone exactly when each placeholder met in it stands for itself, and otherwise changes it at a place both texts have |
| `Masking.EnglishFedBack` | crates/codegloss-core/src/preserve.rs:185-198 | a fragment's own English, handed in for it, comes back exactly when it does not name all the fragment's spans or each placeholder in it stands for itself |
| `Masking.FragmentKeepsSpans` | crates/codegloss-core/src/preserve.rs:185-198 | whatever the engine answers, the spans of a fragment are in what it is restored to |
| `Masking.UnmaskKeepsSpans` | crates/codegloss-core/src/preserve.rs:164-172 | a whole text comes back with every span in it, whatever the engine answers: restored, or as it was |
| `Sentence.SplitSentences` | crates/codegloss-core/src/sentence.rs:117-166 | the loop gives the pieces between the boundaries, which `Boundaries.SplitsExactly` says where they are |
| `Boundaries.BoundaryIs` | crates/codegloss-core/src/sentence.rs:176-239 | what divides two pieces, said of the characters: behind a full stop a capital, digit or opener and no abbreviation; behind a clause's stop four words on each side; behind a comma a relative clause as well |
| `Boundaries.SplitsExactly` | crates/codegloss-core/src/sentence.rs:117-166 | the text is cut at exactly the places behind a run of stops and white space that divide it: each cut is one, and no piece holds another |
| `Boundaries.OneCutting` | crates/codegloss-core/src/sentence.rs:117-166 | only one list of cuts is so |
| `Sentence.NextCutIs` | crates/codegloss-core/src/sentence.rs:117-166 | a cut is made behind a stop, takes white space only, and leaves none in front of the next piece |
| `Sentence.SplitWeaves` | crates/codegloss-core/src/sentence.rs:117-166 | the splitter takes out white space between pieces and nothing else: woven with their gaps, trimmed pieces are the text |
| `Sentence.JoinSentences` | crates/codegloss-core/src/sentence.rs:299-312 | the loop joins the trimmed translations, with a space unless a Japanese stop stands before it |
| `Sentence.JoinIs` | crates/codegloss-core/src/sentence.rs:299-312 | translations are joined in order, those with nothing in them left out, a space between two exactly where the first does not end in a Japanese stop |
| `Sentence.JoinWeaves` | crates/codegloss-core/src/sentence.rs:299-312 | pieces that stop as the splitter's do are joined by exactly one space |
| `Sentence.WeaveEqual` | crates/codegloss-core/src/sentence.rs:299-312 | pieces that are each the text's own or differ from it at a place both have, joined by single spaces, are the text exactly when they are its pieces and its gaps are single spaces |
| `UnitPlan.RestoredWeave` | crates/codegloss-core/src/docblock.rs:505-514 | no placeholder is cut by the splitter: restoring the pieces is restoring the text they were cut from |
| `UnitPlan.UnitWeaves` | crates/codegloss-core/src/docblock.rs:505-514 | a unit's sentences, restored and woven with their gaps, are the unit, and name each of its spans once, in order |
| `UnitPlan.RestoreUnitText` | crates/codegloss-core/src/docblock.rs:563-577 | the loop restores each sentence against its own fragment and joins them |
| `UnitPlan.JoinedIs` | crates/codegloss-core/src/docblock.rs:563-577 | answers that are each the unit's sentence or differ from it at a place both have join to the unit exactly when they are its sentences and its gaps are single spaces |
| `UnitPlan.EchoFits` | crates/codegloss-core/src/sentence.rs:278-283 | an echoing engine gives back the English of a unit's sentences exactly when none of them ends in a comma |
| `UnitPlan.UnitKeepsSpans` | crates/codegloss-core/src/docblock.rs:563-577 | whatever is answered, each protected span of a unit is in the line it comes back as |
| `Markers.AsWrittenSameText` | crates/codegloss-core/src/docblock.rs:732-796 | the two ways of taking a line's markers off differ in white space only |
| `Decorations.LineComesOff` | crates/codegloss-core/src/docblock.rs:732-754 | of a line comment the marker and one space come off, for prose its indentation too: what was written in it is what is read |
| `Decorations.FirstLineComesOff` | crates/codegloss-core/src/docblock.rs:732-754 | the same of the opener of a block, with the closer on the line or not |
| `Decorations.NextLineComesOff` | crates/codegloss-core/src/docblock.rs:732-754 | the same of a line further down, with a star or without |
| `Decorations.WrittenLineIs` | crates/codegloss-core/src/docblock.rs:768-796 | a line kept as written keeps the indentation in front of it where it has no star |
| `Decorations.LineIsDressed` | crates/codegloss-core/src/docblock.rs:732-754 | every line of a line comment is written so |
| `Decorations.FirstLineIsDressed` | crates/codegloss-core/src/docblock.rs:732-754 | and every first line of a block |
| `Decorations.NextLineIsDressed` | crates/codegloss-core/src/docblock.rs:732-754 | and every other |
| `Markers.LeadSplits` | crates/codegloss-core/src/docblock.rs:954-1086 | a lead and the prose behind it are the line, white space aside, by every rule for tags, types, names and markers |
| `Leads.TagLineReads` | crates/codegloss-core/src/docblock.rs:1005-1054 | of a tag line the tag, its type, its name and its hyphen are lead, each as it is written with one space behind it, and the rest is prose; a tag whose argument is a name or code takes the whole line |
| `Leads.TagLineIs` | crates/codegloss-core/src/docblock.rs:966-1054 | every line with a tag in front is written so |
| `Leads.MarkerLeadIff` | crates/codegloss-core/src/docblock.rs:1056-1086 | a line opens with a Markdown marker exactly where a bullet, hashes or a number stands in front of a space |
| `Leads.ExampleOpens` | crates/codegloss-core/src/docblock.rs:375-381 | exactly the tag `@example` opens an example |
| `Markers.ExampleCommentSplits` | crates/codegloss-core/src/docblock.rs:680-700 | the same for a comment inside an example |
| `Leads.ExampleCommentIff` | crates/codegloss-core/src/docblock.rs:680-702 | a line of an example is glossed exactly where it is nothing but a line comment with prose in it; indentation, marker and one space are its lead |
| `Examples.IndentedExamples` | crates/codegloss-core/src/docblock.rs:825-880 | the scan marks exactly the lines a declarative rule about spans calls examples |
| `Examples.SpanMarks` | crates/codegloss-core/src/docblock.rs:825-880 | all lines a span reaches, blank lines inside and a closing brace right behind it included, share its mark: example, or list |
| `Examples.FindCommonIndentation` | crates/codegloss-core/src/docblock.rs:893-917 | finds the common indentation |
| `Examples.CommonIsPrefix` | crates/codegloss-core/src/docblock.rs:893-917 | it is indentation of every line that is not blank |
| `Examples.CommonIsLongest` | crates/codegloss-core/src/docblock.rs:893-917 | and no longer one is |
| `Examples.WrittenSameText` | crates/codegloss-core/src/docblock.rs:862-880 | an example line holds what its line does, white space aside |
| `Examples.UndentedIs` | crates/codegloss-core/src/docblock.rs:862-917 | the indentation a block has in common is all that comes off its lines |
| `Leads.OpensAListIff` | crates/codegloss-core/src/docblock.rs:919-946 | a span is a list exactly if its first line is a bullet or a number, a space or a tab, and something behind it |
| `DocBlock.Parse` | crates/codegloss-core/src/docblock.rs:286-409 | the walk over the lines, with its flags and open paragraph, gives the fold over what each line comes to |
| `Shapes.LinesAre` | crates/codegloss-core/src/docblock.rs:305-305 | a comment is read as its lines without their endings, line feeds with carriage returns in front or without |
| `Shapes.ShapeApart` | crates/codegloss-core/src/docblock.rs:286-409 | lines that do not join are gathered apart: only prose under one lead joins the line above |
| `Shapes.RunIsOneUnit` | crates/codegloss-core/src/docblock.rs:286-409 | and lines of prose under one lead are one unit, a space between two |
| `Shapes.EmptyLineStays` | crates/codegloss-core/src/docblock.rs:356-360 | an empty line between two stretches stays between what they come to, whatever they are |
| `DocBlock.ReadLine` | crates/codegloss-core/src/docblock.rs:299-402 | one turn of it; the two flags are never both set |
| `DocBlock.CopyExampleLine` | crates/codegloss-core/src/docblock.rs:622-645 | an example line is copied, or joins or opens the paragraph of comments under its lead |
| `Rebuild.RebuildComment` | crates/codegloss-core/src/docblock.rs:427-453 | the loops print the pieces around the translations and drop empty lines at both ends |
| `Rebuild.SourceKeepsPieces` | crates/codegloss-core/src/docblock.rs:427-462 | printing keeps all text of the pieces, white space aside |
| `Shapes.JoinedLines` | crates/codegloss-core/src/docblock.rs:452-452 | the lines of a rebuilt comment, read again, are those lines |
| `Rebuild.ShapeAdds` | crates/codegloss-core/src/docblock.rs:286-409 | the pieces hold what each line adds: its text, without its lead where it continues the paragraph above |
| `DocTheorems.SourceKeepsText` | crates/codegloss-core/src/docblock.rs:286-462 | `source()` has all text of the stripped lines, in order, white space aside, exactly when no example comment repeats the lead of the one above; and what it has otherwise |
| `Samples.RepeatedLeadIsLost` | crates/codegloss-core/src/docblock.rs:612-645 | a block comment with a fence and two such lines in it, and its source with the lead printed once |
| `DocTheorems.ShapeProjects` | crates/codegloss-core/src/docblock.rs:286-409 | the copied lines are those of examples and tags without prose, in order; the units hold the words of the other lines |
| `DocTheorems.ExamplesStayOut` | crates/codegloss-core/src/docblock.rs:305-354 | a line of an example that is not a whole-line comment is emitted as written and adds to no unit |
| `DocTheorems.FenceParity` | crates/codegloss-core/src/docblock.rs:332-347 | where no tags are read, a line is in an example by fence exactly when an odd number of fence lines stands in front of it |
| `DocTheorems.FenceRule` | crates/codegloss-core/src/docblock.rs:316-347 | a line is in a fence exactly when a fence line in front of it was met outside fences and `@example` bodies and there has been none since |
| `DocTheorems.ExampleRule` | crates/codegloss-core/src/docblock.rs:308-330 | a line is in an `@example` body exactly when such a tag in front of it was met outside fences and no line since has been a tag |
| `Fences.FencesAgree` | crates/codegloss-parser/src/extract.rs:279-292 | for any run and any rules, the parser and the reader agree whether a fence is open exactly when an even number of fence lines were met in an `@example` body; where no tags are read none are |
| `Samples.FenceInExample` | crates/codegloss-parser/src/extract.rs:279-292 | a tag line and a fence line behind which the parser is in a fence and the reader in the tag's example |
| `DocTheorems.ShapeFits` | crates/codegloss-core/src/docblock.rs:286-409 | every unit has something in it and no white space around it |
| `GlossPlan.NewPlan` | crates/codegloss-core/src/docblock.rs:503-518 | the plan of a comment is its pieces and each unit masked and cut |
| `GlossPlan.Restore` | crates/codegloss-core/src/docblock.rs:557-579 | the loop gives each unit its share of the translations; a list of the wrong length gives the source |
| `GlossPlan.TextsAt` | crates/codegloss-core/src/docblock.rs:562-577 | unit i is restored from exactly the translations of its own sentences |
| `GlossPlan.RebuildEqual` | crates/codegloss-core/src/docblock.rs:427-462 | a comment rebuilt around two lists of texts, pairwise the same or different at a place both have, is the same exactly when the lists are |
| `GlossTheorems.RoundTrip` | crates/codegloss-core/src/docblock.rs:503-579 | restoring the sentences unchanged gives `source()` exactly when single spaces stand between the sentences of each unit; an echoing engine does exactly when, besides, none ends in a comma |
| `GlossTheorems.NothingProtectedIsLost` | crates/codegloss-core/src/docblock.rs:427-579 | for every list of answers, of any length, each non-empty verbatim line and each lead with its unit's text stands in the gloss, in order, and each unit's text holds every span protected in it |
| `GlossTheorems.SourcesFedBack` | crates/codegloss-core/src/docblock.rs:585-594 | `sources()` handed in as translations give what the sentences themselves give exactly when no sentence's English names all its spans by placeholders that stand for anything but themselves |
| `GlossTheorems.SourcesRestored` | crates/codegloss-core/src/docblock.rs:1707-1722 | and they give `source()` exactly when, besides, single spaces stand between the sentences of each unit |
| `GlossTheorems.NoNameComesBack` | crates/codegloss-core/src/docblock.rs:585-594 | a unit that names no span of its own by its placeholder meets that condition |
| `Samples.NamesAreSwapped` | crates/codegloss-core/src/docblock.rs:581-594 | a line comment that mentions two placeholders comes back with them exchanged when its `sources()` are handed in |
| `GlossKey.NewKey` | crates/codegloss-core/src/model.rs:154-174 | the stream fed to the hash is every field with a NUL behind it |
| `GlossKey.KeyStream` | crates/codegloss-core/src/model.rs:146-174 | the stream of each set of rules, character for character |
| `GlossKey.EncodeInjective` | crates/codegloss-core/src/model.rs:110-174 | streams are equal exactly when the fields are, if only the last field may hold a NUL |
| `GlossKey.KeysDiffer` | crates/codegloss-lsp/src/translation.rs:738-746 | two keys are equal exactly when version, rules and comment are; the comment may hold anything |
| `GlossKey.VersionsCollide` | crates/codegloss-core/src/model.rs:149-174 | of two versions, whatever they hold, some comments share a key exactly when the longer is the shorter and what stands behind it in the stream up to the comment, with or without its last NUL or with more behind it |
| `GlossKey.NulInVersionCollides` | crates/codegloss-core/src/model.rs:149-174 | with a NUL in the version, comments that share a key, one for each comment |
| `GlossCache.GlossCache.Get` | crates/codegloss-core/src/cache.rs:98-106 | a look-up moves the recency list as its specification says and answers memory before disk |
| `GlossCache.GlossCache.ContainsKey` | crates/codegloss-core/src/cache.rs:112-115 | whether either half holds the key; nothing changes |
| `GlossCache.GlossCache.Insert` | crates/codegloss-core/src/cache.rs:123-128 | writes the disk if it accepts, and memory |
| `GlossCache.GlossCache.Remember` | crates/codegloss-core/src/cache.rs:131-145 | the key goes to the end of the recency list; a full cache gives up the first for a new key |
| `GlossCache.GlossCache.Remembered` | crates/codegloss-core/src/cache.rs:148-154 | a hit goes to the end of the list |
| `GlossCache.GlossCache.LeastRecentlyUsed` | crates/codegloss-core/src/cache.rs:198-203 | a scan in any order finds an entry with the smallest tick |
| `GlossCache.GlossCache.EvictLeastRecentlyUsed` | crates/codegloss-core/src/cache.rs:198-208 | ticks differ, so whatever the hash order the victim is the front of the list |
| `CacheTheorems.RunValid` | crates/codegloss-core/src/cache.rs:131-145 | after any run memory holds no more than the capacity, and no key twice |
| `CacheTheorems.RunByUse` | crates/codegloss-core/src/cache.rs:98-154 | the list is in the order of the last look-up or insertion of each key; asking is no use |
| `CacheTheorems.MemoryIsMostRecent` | crates/codegloss-core/src/cache.rs:98-154 | a key that has been in memory and is no longer was used before all that are, and these are as many as fit: memory is the most recently used keys |
| `CacheTheorems.LargerHits` | crates/codegloss-core/src/cache.rs:98-154 | of two caches asked the same, the larger holds and answers whatever the smaller does |
| `CacheTheorems.AnswersLatest` | crates/codegloss-core/src/cache.rs:98-128 | `get` answers the value last inserted exactly when the key has stayed in memory since, or the value the disk took last is that value, as it is whenever the disk took the last write |
| `CacheTheorems.RefusedWriteGoesStale` | crates/codegloss-core/src/cache.rs:119-128 | a refused write, an eviction, and the older value back |
| `Jobs.CollectUntilQuiet` | crates/codegloss-lsp/src/translation.rs:631-645 | what is pending is what the jobs come to, later ones over earlier ones |
| `Jobs.LastJobWins` | crates/codegloss-lsp/src/translation.rs:623-645 | what waits for a document is all of its last job and nothing of those before |
| `Slots.Of` | crates/codegloss-lsp/src/translation.rs:684-706 | the loop gives the segments in the order they first occur, and the slots of each plan |
| `Slots.BatchFits` | crates/codegloss-lsp/src/translation.rs:670-706 | segments are pairwise distinct and all asked for; every slot is in range and leads to the segment it was made for |
| `Batch.ThroughSlots` | crates/codegloss-lsp/src/translation.rs:557-576 | for any pointwise translation, reading through the slots is translating each plan's own segments |
| `Jobs.UncachedSources` | crates/codegloss-lsp/src/translation.rs:652-668 | documents in any order: what is left is not cached, has distinct keys, and covers everything else that is pending |
| `Jobs.UncachedCovers` | crates/codegloss-lsp/src/translation.rs:647-668 | each pending comment is cached or in the list itself, which holds none twice |
| `Batch.Store` | crates/codegloss-lsp/src/translation.rs:557-577 | inserts each comment's gloss under its own key, in order, and nothing else |
| `Batch.RunEngine` | crates/codegloss-lsp/src/translation.rs:487-552 | a failure or a reply of the wrong length stores nothing; anything else stores every gloss |
| `Batch.RunBatch` | crates/codegloss-lsp/src/translation.rs:455-483 | one engine decides what is left out, is asked, and names the keys |
| `Batch.GlossedAlone` | crates/codegloss-lsp/src/translation.rs:487-577 | each comment gets the gloss it would get alone, whatever else is in the batch |
| `Batch.AskedAsTheWorkerDoes` | crates/codegloss-lsp/src/translation.rs:487-552 | what comes of any reply is what `Worker` takes a batch to be handed: nothing, or each comment's own gloss |
| `Batch.PerSegmentReplies` | crates/codegloss-lsp/src/translation.rs:520-525 | an engine that is independent of the batch, as `BeamSearch.Engine.Translate` is, translates by one function |
| `Batch.BatchCovers` | crates/codegloss-lsp/src/translation.rs:455-577 | after an answered batch each pending comment was cached or is looked up as its gloss, whatever memory gave up |
| `Worker.StepHolds` | crates/codegloss-lsp/src/translation.rs:392-577 | every step - enqueue, swap, collect, check, ask, store, evict, look up - keeps each entry under (version, rules, comment) the gloss that version's engine makes of it |
| `Worker.RunHolds` | crates/codegloss-lsp/src/translation.rs:392-577 | so it holds in every state of every interleaving |
| `Worker.AnswersAreOfTheirEngine` | crates/codegloss-lsp/src/translation.rs:333-341 | every answered look-up began at some step of the run, and was answered with the gloss that the engine in the slot at that step makes of its comment |
| `Worker.NoneAfterASwap` | crates/codegloss-lsp/src/translation.rs:146-161 | a look-up begun after the engine was replaced is answered with the new engine's gloss, whatever was cached, stored or under way |
| `Worker.BatchCoversLatest` | crates/codegloss-lsp/src/translation.rs:455-483 | when a batch has stored all it had to, each comment of each document's latest job has been in a cache in the course of that batch, with the gloss its engine makes of it |
| `Worker.AcceptedStays` | crates/codegloss-lsp/src/translation.rs:557-577 | a gloss whose write the disk took stays there for good, whatever is swapped, stored or evicted later |
| `Runs.MergeRuns` | crates/codegloss-parser/src/extract.rs:376-411 | the loop with its open run and fence flag gives the blocks of the cuts |
| `Runs.CloseRun` | crates/codegloss-parser/src/extract.rs:414-450 | a run becomes one block without its wordless end, or none if nothing in it has words |
| `Runs.Partition` | crates/codegloss-parser/src/extract.rs:376-450 | blocks are sorted, disjoint chains that begin and end on a comment that holds something; every comment with words is in one; neighbours in blocks share one exactly when one continues into the other |
| `Blocks.BlocksAre` | crates/codegloss-parser/src/extract.rs:270-325 | the same said of the comments: what follows what by line, column, marker and standing alone, what has words, what is a fence line |
| `Blocks.TextIs` | crates/codegloss-parser/src/extract.rs:414-450 | a block reads as the bodies that are not empty, in order, single spaces between them |
| `Runs.InOne` | crates/codegloss-parser/src/extract.rs:376-450 | no comment is in two blocks |
| `Runs.BlocksDisjoint` | crates/codegloss-parser/src/extract.rs:414-450 | the byte ranges of blocks are disjoint and in order |
| `Runs.FencedIsOdd` | crates/codegloss-parser/src/extract.rs:379-408 | the flag says that an odd number of the run's comments are fence lines |
| `Runs.ExampleStaysWhole` | crates/codegloss-parser/src/extract.rs:369-408 | no stretch from an opening fence to its closing one is split; with words in it, it is in one block |
| `Positions.ByteOffsetAt` | crates/codegloss-lsp/src/documents.rs:242-260 | the loops find the offset of a position |
| `Positions.LengthsAre` | crates/codegloss-lsp/src/documents.rs:242-271 | a character takes as few bytes of UTF-8 as hold it, and two units of UTF-16 exactly beyond the first plane |
| `Positions.RoundTrip` | crates/codegloss-lsp/src/documents.rs:242-271 | a character boundary comes back from its coordinates exactly when they fit in 32 bits |
| `Positions.BoundaryIff` | crates/codegloss-lsp/src/documents.rs:263-271 | an offset has coordinates exactly when it is a character boundary |
| `Positions.Lands` | crates/codegloss-lsp/src/documents.rs:236-260 | a position leads to a boundary on its line: itself, the line's end if it is past it, or behind the character it splits |
| `Positions.BackExactlyWhen` | crates/codegloss-lsp/src/documents.rs:242-271 | a position comes back from its offset exactly when it is a place in the text |
| `Positions.OffsetsGrow` | crates/codegloss-lsp/src/documents.rs:242-260 | a later position never has a smaller offset |
| `Documents.DocumentStore.Open` | crates/codegloss-lsp/src/documents.rs:106-118 | the document and the comments extracted from it are kept |
| `Documents.DocumentStore.Update` | crates/codegloss-lsp/src/documents.rs:124-141 | an open document has its new text and that text's comments; any other change is dropped |
| `Documents.DocumentStore.CommentBlockAt` | crates/codegloss-lsp/src/documents.rs:158-173 | the loop finds the block under a position; of a store whose extractor places blocks well that hit is right |
| `Documents.HitExactlyWhen` | crates/codegloss-lsp/src/documents.rs:153-173 | for any document as it is kept: there is a hit exactly when the offset lies in a block, which is the only one; where coordinates fit, its range holds the place |
| `Extracted.BlocksArePlaced` | crates/codegloss-parser/src/extract.rs:376-450 | blocks folded from comments that lie in order on characters of a text lie so too |
| `Extracted.CommentsAreHit` | crates/codegloss-lsp/src/documents.rs:153-173 | of a document whose comments were parsed and folded, what is found under a position is right, and every position in a comment with words finds something |
| `Calendar.CivilIsRight` | crates/codegloss-lsp/src/logging.rs:447-471 | every day has a valid date of the proleptic Gregorian calendar whose day number it is |
| `Calendar.NumberIsRight` | crates/codegloss-lsp/src/logging.rs:447-471 | every valid date comes back from its day number |
| `Calendar.NextDay` | crates/codegloss-lsp/src/logging.rs:447-471 | day d+1 is the calendar's successor of day d, and day 0 is 1970-01-01 |
| `Calendar.DatesInOrder` | crates/codegloss-lsp/src/logging.rs:447-471 | dates come in the order of their days |
| `Calendar.FourDigits` | crates/codegloss-lsp/src/logging.rs:383-393 | the days whose year is 0 to 9999 |
| `Timestamp.SinceIsFloor` | crates/codegloss-lsp/src/logging.rs:412-437 | floor division on both sides of the epoch, exactly where the seconds fit; nothing overflows, clamped or not |
| `Timestamp.WriteTimestamp` | crates/codegloss-lsp/src/logging.rs:377-405 | appends the timestamp |
| `Timestamp.StampReads` | crates/codegloss-lsp/src/logging.rs:377-405 | what is written reads, digit by digit and place by place, as a valid date and a time of day that are the instant to the microsecond; the year in four digits or with a sign |
| `Timestamp.PlainYears` | crates/codegloss-lsp/src/logging.rs:377-393 | the instants whose year is 0 to 9999, as a range of seconds |
| `Timestamp.StampsInOrder` | crates/codegloss-lsp/src/logging.rs:377-405 | for the years 0 to 9999: 27 characters, equal exactly for one microsecond, in text order exactly as in time |
| `Filter.Parse` | crates/codegloss-lsp/src/logging.rs:232-271 | the loop reads the directives one after the other, or names the first that cannot be read |
| `Filter.PiecesAre` | crates/codegloss-lsp/src/logging.rs:238-242 | the string is cut at every comma and nowhere else |
| `Filter.ParsedIsValid` | crates/codegloss-lsp/src/logging.rs:232-271 | parsed targets are distinct and not empty |
| `Filter.LastOneWins` | crates/codegloss-lsp/src/logging.rs:232-271 | a string is refused exactly when a directive in it is; otherwise each target, and the default, has the level last written for it |
| `Filter.AllowsExactlyWhen` | crates/codegloss-lsp/src/logging.rs:299-309 | an event is written exactly if the one longest matching prefix allows it, or the default where none matches |
| `Filter.OrderDoesNotMatter` | crates/codegloss-lsp/src/logging.rs:299-309 | the order of the targets has no say |
| `Filter.MaxLevelIsExact` | crates/codegloss-lsp/src/logging.rs:315-324 | no louder event is ever written, and one that loud is, for some target |

## Left out

- Tensors, attention and weights: a row's log probabilities are a function of the source it attends to, the token fed and what its cache holds - tokens, each with the source it was read against - and a masked position has no influence; that is what the kernel of `BeamModel.Model` assumes.
- Tokenizers: encoding and decoding are functions that may fail. Scores are reals or minus infinity, without rounding and without NaN; `best` sorts with an unstable algorithm, and the order of equal scores is fixed here as the order they were pushed in.
- BLAKE3 and UTF-8 in a cache key: a key is the stream of characters itself, so two keys are taken to be equal only if their streams are.
- Offsets into comments count characters where the source counts bytes at the same places; `Positions` counts both. `usize` is 64 bits wide. In `Preserve` and `Masking` a text is no longer than memory allows, half of `usize`.
- Worker: the caches of `Worker` are maps with eviction at any time, of which the recency list of `GlossCache` is one case; the debounce window, refresh requests, their timeouts and poisoned locks are the nondeterminism of the steps.
- Batch.RunBatch: the engine is a function of the list it is given, which may fail; `Worker` lets each reply fail on its own.
- BeamSearch.Engine.Translate: a position table of no places at all, on which the subtraction in `tokenize` underflows, is not part of this model.
- GlossCache.GlossCache.NextTick: does not model the wrap-around of a 64-bit tick, which takes longer than any process runs.
- GlossCache.GlossCache.Insert: whether the store takes a write is an argument; a directory changed by another process, and pruning when it is opened, are not part of this model.
- Positions.ByteOffsetAt: the running UTF-16 column is not bounded to 32 bits; a line that long does not fit a position either, which is the condition of `Positions.RoundTrip`.
- Runs.MergeRuns: its input is a list of comments as the parser hands them over; parsing with tree-sitter, line and doc markers and the text of a block comment are not part of this model.
- Documents.DocumentStore.Open: the extraction is a function of language and text, and the locks are not modelled; each method is one step.
- Filter.Parse: what a level is spelled like is a parameter, as it is the `tracing` crate's.
- Timestamp.StampsInOrder: years outside 0 to 9999 print with a sign and another width, and do not sort as text.
- Control characters in log lines, the bridge to `log`, JSON-RPC, code lenses, hovers, configuration, downloads and the editor extensions, which do not touch the state modelled here.
