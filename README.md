# TinyStories runner: tokenizer and generation loop

This project models the core of `RunTinyStories`, a Unity component that
drives a small language model one token per frame. The parts modelled are:

- **Byte shift.** The 68 "white-space" byte values are remapped to the codes
  256 to 323 by two 256-entry tables, `encodedCharacters` and
  `whiteSpaceCharacters`. `ShiftCharacterUp` and `ShiftCharacterDown` apply
  the tables character by character. This is module `ByteShift` in
  `byte_shift.dfy`.
- **Vocabulary.** At start-up, the reverse table maps each id to its subword;
  it is filled from the vocabulary dictionary. This is module `Vocabulary`
  in `vocabulary.dfy`.
- **Byte-pair encoder.** The prompt becomes one token per shifted character.
  Each merges-file line then makes one in-place left-to-right pass over the
  token list. Finally, every token found in the vocabulary is turned into its
  id, and the others are dropped. This is `GetTokens` and `ApplyMerges`, in
  module `BpeEncoder` in `bpe_encoder.dfy`.
- **Generation session.** This covers:
  - the window of `maxTokens` ids, which slides left when it is full;
  - the position of the latest token;
  - the count of generated tokens, and the stop at end-of-text or at `stopAfter`;
  - the `runInference` flag, which gates the per-frame `Update`;
  - `ResetGenerationState`, `DecodePrompt` and the click handler.

  This is module `Generation` in `generation.dfy`.

Each part is modelled in two layers:

- **Pure specification.** Datatypes and functions such as `ShiftCode`,
  `MergePass`, `ApplyRules`, `Encode`, `StepState` and `Run`, with lemmas
  about them.
- **Imperative layer.** It follows the source's own loops and in-place
  updates:
  - `ShiftTables.SetupWhiteSpaceShifts` fills two arrays;
  - `LoadVocabulary` writes slots of an array;
  - `ApplyMerges` keeps the source's nested `foreach` / `while (n >= 0)` loop with `IndexOf`;
  - the class `RunTinyStories` holds the component's fields. Its
    `RunInference` shifts the window array in place.

  Every method has an `ensures` that ties its result or its new state to
  the pure layer.

Among the properties proved:

- The shift tables are a bijection between the 256 byte values and the codes
  they produce.
- As written, the backward shift undoes the forward shift on every string
  without a NUL byte. With the corrected boundary it does so on every string,
  in both directions.
- A merge pass keeps the spelled text, changes the list exactly when the pair
  occurs, and leaves no pair behind.
- Rules apply in file order.
- The in-place merge loop computes exactly the pure passes.
- As written, encoding and then decoding gives back the prompt's bytes
  whenever the prompt has no byte 0 and every merged token is in the
  vocabulary. With the corrected boundary, the same holds for every prompt.
- A vocabulary whose ids are a permutation fills every slot of the reverse
  table (a pigeonhole argument).
- The generation stops within `stopAfter` frames and at an end-of-text id,
  and stays stopped.
- While generating, every frame appends the decoded token to the text.
- Resetting is idempotent.

The model keeps these behaviours of the program as written:

- The backward shift passes codes up to and including 256 through unchanged
  (`Scripts/RunTinyStories.cs:154`). The session decodes with this shift; see
  Findings for what it does to byte 0.
- The reverse table has `vocab.Count` slots (`Scripts/RunTinyStories.cs:128`).
  A gap in the ids raises no error. It leaves a `null` slot, which
  `Vocabulary.GapLeavesEmptySlot` characterises.
- `ResetGenerationState` does not clear `runInference`
  (`Scripts/RunTinyStories.cs:238-241`).
- A prompt longer than the window is not truncated. The array write at
  `Scripts/RunTinyStories.cs:119` fails, so `DecodePrompt` requires the
  prompt to fit.

## Model

| member | source | states |
|---|---|---|
| ByteShift.IsWhiteSpace | Scripts/RunTinyStories.cs:183-186 | the source's test: bytes up to 32, 127 to 160, and 173; its count of 68 is `WhiteSpaceCountIsExact` |
| ByteShift.WhiteSpaceBelowClosedForm | Scripts/RunTinyStories.cs:183-186 | the number of white-space bytes below any i <= 256, range by range: 0..32, 127..160 and 173 |
| ByteShift.WhiteSpaceCountIsExact | Scripts/RunTinyStories.cs:172-186 | the filling pass meets exactly 68 white-space bytes, so `whiteSpaceCharacters` is written at indices 0..67 only |
| ByteShift.ShiftCode | Scripts/RunTinyStories.cs:174-178 | the value `encodedCharacters[i]` ends up with lies in [0, 512) |
| ByteShift.WhiteSpaceByte | Scripts/RunTinyStories.cs:178 | the k-th white-space byte is a byte value |
| ByteShift.WhiteSpaceEntry | Scripts/RunTinyStories.cs:175-179 | every slot of `whiteSpaceCharacters` holds a byte value (a recorded byte, or the initial 0) |
| ByteShift.ShiftCodeRange | Scripts/RunTinyStories.cs:174-178 | a byte that is not white space maps to itself; a white-space byte maps into [256, 324) |
| ByteShift.WhiteSpaceBelowGrows | Scripts/RunTinyStories.cs:177-178 | the running count `n` strictly increases after each white-space byte |
| ByteShift.ShiftCodeInjective | Scripts/RunTinyStories.cs:170-181 | no two bytes get the same code |
| ByteShift.ShiftCodeOnto | Scripts/RunTinyStories.cs:170-181 | every code 256 + k with k < 68 is the code of the white-space byte recorded at `whiteSpaceCharacters[k]` |
| ByteShift.WhiteSpaceEntryInverts | Scripts/RunTinyStories.cs:175-179 | the reverse table undoes the forward table on every white-space byte |
| ByteShift.ShiftTables.constructor | Scripts/RunTinyStories.cs:37-45 | after the zero-filled arrays and the start-up call, both tables hold exactly the specified contents |
| ByteShift.ShiftTables.SetupWhiteSpaceShifts | Scripts/RunTinyStories.cs:170-181 | after the pass, every `encodedCharacters[i]` is the specified code, every `whiteSpaceCharacters[k]` for k < 68 is the k-th white-space byte, and the slots from 68 on are untouched |
| ByteShift.ShiftTables.ShiftCharacterUp | Scripts/RunTinyStories.cs:160-168 | the character-by-character lookup loop returns the forward shift of its input |
| ByteShift.ShiftTables.ShiftCharacterDown | Scripts/RunTinyStories.cs:149-158 | the character-by-character lookup loop, with the source's `<= 256` test, returns the as-written backward shift |
| ByteShift.ShiftUp | Scripts/RunTinyStories.cs:160-168 | the forward shift keeps the length and yields codes below 512 |
| ByteShift.ShiftDown | Scripts/RunTinyStories.cs:149-158 | the as-written backward shift keeps the length |
| ByteShift.ShiftDownFixed | Scripts/RunTinyStories.cs:149-158 | the corrected backward shift keeps the length and yields only Latin-1 codes |
| ByteShift.ShiftUpIsShifted | Scripts/RunTinyStories.cs:160-168 | every character the forward shift yields is a non-white-space byte or a code in [256, 324) |
| ByteShift.ShiftRoundTripWithoutNul | Scripts/RunTinyStories.cs:149-168 | as written, shifting down after shifting up gives back every Latin-1 string without a NUL byte |
| ByteShift.NulIsNotRecovered | Scripts/RunTinyStories.cs:154 | as written, byte 0 is shifted to 256 and comes back as U+0100 |
| ByteShift.ShiftRoundTrip | Scripts/RunTinyStories.cs:149-168 | with the corrected boundary, shifting down after shifting up gives back every Latin-1 string |
| ByteShift.UnshiftRoundTrip | Scripts/RunTinyStories.cs:149-168 | shifting up after the corrected shift down gives back every string of shifted codes |
| ByteShift.ShiftDownAppend | Scripts/RunTinyStories.cs:151-157 | the as-written backward shift works per character, so it distributes over concatenation |
| Vocabulary.LoadVocabulary | Scripts/RunTinyStories.cs:128-132 | the reverse table has one slot per entry; each filled slot holds a key with that id; every key's slot is filled; with distinct ids each key sits at its own id; with a permutation of ids no slot stays null |
| Vocabulary.DistinctIdsCount | Scripts/RunTinyStories.cs:128-132 | distinct ids give as many ids as entries |
| Vocabulary.PermutationFillsEverySlot | Scripts/RunTinyStories.cs:128-132 | when the ids are a permutation of 0 .. Count-1, every slot has an owner |
| Vocabulary.GapLeavesEmptySlot | Scripts/RunTinyStories.cs:128-132 | an id in range that no entry has means the ids are not a permutation, so that slot stays null |
| Vocabulary.Filled | Scripts/RunTinyStories.cs:128-132 | a table without null slots, as strings, slot for slot |
| BpeEncoder.Latin1 | Scripts/RunTinyStories.cs:146 | reading bytes as ISO-8859-1 gives one character per byte with the same code |
| BpeEncoder.Singletons | Scripts/RunTinyStories.cs:192-196 | one token per character, in order |
| BpeEncoder.ConcatSingletons | Scripts/RunTinyStories.cs:192-196 | the one-character tokens spell the text |
| BpeEncoder.Field | Scripts/RunTinyStories.cs:216 | a field of `Split(' ')` is the longest space-free prefix and ends at a space or at the end |
| BpeEncoder.SplitMerge | Scripts/RunTinyStories.cs:216 | `pair[0]` is the text before the first space and `pair[1]` the field after it; neither holds a space |
| BpeEncoder.MergeRules | Scripts/RunTinyStories.cs:214-216 | one rule per merges line, in file order, each the split of its line |
| BpeEncoder.MergePass | Scripts/RunTinyStories.cs:217-227 | one pass of a rule never makes the list longer |
| BpeEncoder.ApplyRules | Scripts/RunTinyStories.cs:214-227 | the passes of all lines never make the list longer |
| BpeEncoder.MergePassKeepsText | Scripts/RunTinyStories.cs:223-224 | a pass keeps the text the tokens spell |
| BpeEncoder.MergePassChangesIffPair | Scripts/RunTinyStories.cs:217-227 | a pass changes the list if and only if the adjacent pair occurs, and then makes it shorter |
| BpeEncoder.MergePassIsComplete | Scripts/RunTinyStories.cs:217-227 | with two non-empty sides, no adjacent pair is left after a pass |
| BpeEncoder.ApplyRulesInOrder | Scripts/RunTinyStories.cs:214 | the rules take effect strictly in file order: a prefix, then the rest |
| BpeEncoder.ApplyRulesKeepsText | Scripts/RunTinyStories.cs:212-229 | all passes together keep the spelled text |
| BpeEncoder.IndexOf | Scripts/RunTinyStories.cs:220 | `IndexOf(item, start)` is -1 or the first position at or after `start` that holds `item` |
| BpeEncoder.ScanSkips | Scripts/RunTinyStories.cs:220 | jumping to the next `pair[0]` does not change what the pass produces |
| BpeEncoder.MergePassAtMatch | Scripts/RunTinyStories.cs:221-226 | joining the pair at n and moving past it continues the same pass |
| BpeEncoder.MergePassAtMiss | Scripts/RunTinyStories.cs:221-226 | a `pair[0]` with no `pair[1]` after it is kept, and the scan moves on |
| BpeEncoder.ApplyRulesExtend | Scripts/RunTinyStories.cs:214 | one more line of the file is one more pass over the list so far |
| BpeEncoder.ApplyMerges | Scripts/RunTinyStories.cs:212-229 | the in-place nested loop leaves exactly the result of the passes of all lines in file order; it keeps the spelled text and never lengthens the list |
| BpeEncoder.LookupIds | Scripts/RunTinyStories.cs:200-207 | no more ids than tokens, each of them a vocabulary id |
| BpeEncoder.LookupIdsAllKnown | Scripts/RunTinyStories.cs:200-207 | when every token is known, nothing is dropped and id i is the id of token i |
| BpeEncoder.MergedTokensSpellText | Scripts/RunTinyStories.cs:188-198 | the merged tokens spell the shifted prompt |
| BpeEncoder.MergedTokens | Scripts/RunTinyStories.cs:190-198 | no more merged tokens than prompt bytes |
| BpeEncoder.Encode | Scripts/RunTinyStories.cs:188-210 | the encoder yields at most one id per prompt byte, each a vocabulary id |
| BpeEncoder.GetTokens | Scripts/RunTinyStories.cs:188-210 | shift, split, merge and look up yield exactly the encoder's result, with at most one id per byte and only vocabulary ids |
| BpeEncoder.Detokenize | Scripts/RunTinyStories.cs:137-141 | decoding the ids one after another with the `<= 256` shift gives one character per character of their subwords |
| BpeEncoder.DetokenizeIsShiftOfSubwords | Scripts/RunTinyStories.cs:137-141 | decoding the ids one by one with the as-written shift equals shifting back their joined subwords |
| BpeEncoder.SubwordsAreConcat | Scripts/RunTinyStories.cs:200-207 | ids that line up with a token list name subwords that spell that list |
| BpeEncoder.ConcatPartsAreShifted | Scripts/RunTinyStories.cs:198 | every merged token of a shifted text consists of shifted codes |
| BpeEncoder.EncodedSubwords | Scripts/RunTinyStories.cs:188-210 | when the reverse table inverts the vocabulary and every merged token is known, the prompt's ids name subwords of shifted codes that spell the shifted prompt |
| BpeEncoder.EncodeDecodeRoundTrip | Scripts/RunTinyStories.cs:107-141 | as written: decoding the prompt's ids through a reverse table that inverts the vocabulary gives back the prompt's bytes, provided the prompt has no byte 0 and every merged token is in the vocabulary |
| BpeEncoder.EncodeDecodeRoundTripFixed | Scripts/RunTinyStories.cs:107-141 | with the corrected boundary, shifting back the joined subwords of the prompt's ids gives back every prompt's bytes |
| BpeEncoder.NulPromptIsNotRecovered | Scripts/RunTinyStories.cs:107-154 | as written, the prompt [0] with the vocabulary {U+0100: 0} encodes to [0] and decodes to U+0100, not NUL |
| BpeEncoder.ExampleRuleSplits | Scripts/RunTinyStories.cs:216 | the line "a b" splits into ("a", "b") |
| BpeEncoder.EncodeMergesPair | Scripts/RunTinyStories.cs:188-229 | with the rule "a b", the prompt "ab" becomes the single id of "ab" |
| BpeEncoder.EncodeLeavesLeadingToken | Scripts/RunTinyStories.cs:217-227 | in "aab" the pass skips the first "a" and joins the second with the "b" |
| BpeEncoder.EncodeDropsUnknown | Scripts/RunTinyStories.cs:203-206 | a token with no vocabulary entry contributes no id |
| Generation.ResetState | Scripts/RunTinyStories.cs:231-242 | after a reset, the window is all zeros of the configured size and the session is well formed |
| Generation.ResetIsIdempotent | Scripts/RunTinyStories.cs:231-242 | resetting twice is resetting once; only the flag survives from the old session; the count and the text are empty |
| Generation.SeedPrompt | Scripts/RunTinyStories.cs:113-122 | `DecodePrompt` puts the prompt's ids at the front of the window, keeps the other slots, and sets the position to the last of the ids; nothing else changes |
| Generation.Stops | Scripts/RunTinyStories.cs:99-101 | the stop test: the end-of-text id, or the incremented count reaching `stopAfter` |
| Generation.DecodeToken | Scripts/RunTinyStories.cs:107 | a generated token is decoded with the as-written `<= 256` shift, one character per subword character |
| Generation.StepState | Scripts/RunTinyStories.cs:92-108 | a full window becomes its tail plus the new id and the position stays on the last slot; otherwise the id goes to the next slot. The count grows by one; the flag drops exactly at end-of-text or at the cap; the text grows by the token decoded with the `<= 256` shift exactly when the step does not stop |
| Generation.UpdateState | Scripts/RunTinyStories.cs:72-78 | a frame with the flag cleared changes nothing |
| Generation.Run | Scripts/RunTinyStories.cs:72-78 | any sequence of frames keeps the session well formed |
| Generation.StoppedStaysStopped | Scripts/RunTinyStories.cs:72-104 | once the flag is cleared, later frames change nothing |
| Generation.RunEndsWithinCap | Scripts/RunTinyStories.cs:99-104 | at most `stopAfter - totalTokens` frames (and at least one) end the generation |
| Generation.SourceCapIsOneHundred | Scripts/RunTinyStories.cs:15-28 | with the source's constants, 100 frames from a reset session end the generation |
| Generation.RunEndsAtEndOfText | Scripts/RunTinyStories.cs:101-104 | a predicted end-of-text id ends the generation |
| Generation.FrameAppends | Scripts/RunTinyStories.cs:99-108 | a frame that does not stop appends the token decoded with the `<= 256` shift, bumps the count and keeps generating |
| Generation.RunAppendsDecodedText | Scripts/RunTinyStories.cs:99-108 | while no step stops, the text grows by `Detokenize` of the predicted ids (the as-written decode of each, in order), and the count by their number |
| Generation.SlidingWindowExample | Scripts/RunTinyStories.cs:92-98 | a full window [10, 11, 12, 13] receiving 99 becomes [11, 12, 13, 99] with the position on the last slot |
| Generation.EndOfTextExample | Scripts/RunTinyStories.cs:98-104 | the end-of-text id is still stored, the flag drops, and the text is unchanged |
| Generation.RunTinyStories.constructor | Scripts/RunTinyStories.cs:15-45 | the field initialisers plus the filled reverse table give a valid idle session whose reverse table inverts the vocabulary |
| Generation.RunTinyStories.ResetGenerationState | Scripts/RunTinyStories.cs:231-242 | the new state is the reset of the old one, with a fresh window array |
| Generation.RunTinyStories.DecodePrompt | Scripts/RunTinyStories.cs:113-122 | after encoding the prompt and copying its ids into the window array, the state is that of seeding the window with the encoder's result |
| Generation.RunTinyStories.ShiftWindowLeft | Scripts/RunTinyStories.cs:94 | the loop moves every id one slot to the left in place; the last slot keeps its id |
| Generation.RunTinyStories.RunInference | Scripts/RunTinyStories.cs:92-108 | the in-place shift of the window array and the field updates, with the text extended by the `<= 256` decode, produce exactly one step of the session for the predicted id |
| Generation.RunTinyStories.Update | Scripts/RunTinyStories.cs:72-78 | the frame steps exactly when the flag is set |
| Generation.RunTinyStories.OnGenerateButtonClicked | Scripts/RunTinyStories.cs:63-70 | reset, the prompt's raw form as the text, the window seeded with its ids, and the flag set |

## Left out

- The model engine is left out, together with everything that touches it: `InitializeModel`, `engine.Execute`, the multinomial sampling with `predictability`, and `Dispose` (`Scripts/RunTinyStories.cs:47-61`, `82-90`, `233-236`, `244` onward). The predicted id is a parameter of `RunInference` and `Update`.
- Reading `vocab.json` and `merges.txt` and deserialising the JSON is left out (`Scripts/RunTinyStories.cs:126-127`, `134`). The vocabulary map and the merges lines are inputs.
- The UI is left out: the button listener, `inputField.text` and `outputText.text`. The prompt is the parameter of `OnGenerateButtonClicked`.
- `GetASCIIText` and `GetUnicodeText` are only partly modelled. The UTF-8 encoding and decoding are left out, and the prompt is given as its UTF-8 bytes. The ISO-8859-1 step is modelled as `BpeEncoder.Latin1`, and the shifts are modelled.
- Generation.RunTinyStories.RunInference: keeps `outputString` in raw form, as the Latin-1 characters of the decoded bytes, instead of UTF-8-decoding each subword. This is because the UTF-8 codec is not modelled.
- C# `int` overflow is not modelled, and integers are unbounded. The counters stay far below 2^31 within one generation, because `totalTokens` stops at `stopAfter`.
- Exceptions the source would throw are preconditions:
  - an id outside the reverse table;
  - a character of 512 or more in `ShiftCharacterDown`;
  - a prompt with more ids than the window;
  - a vocabulary id outside 0 .. Count-1.
- BpeEncoder.ApplyMerges: requires every merges line to contain a space. The source only fails on a line without one when that line's first field occurs before the last token.
- The order in which the dictionary yields its entries is not fixed. `LoadVocabulary` takes them in an arbitrary order, and its contract holds for every order.
- In the source, the shift tables are two fields of the component, filled by `Start`. Here they are the class `ByteShift.ShiftTables`. The encoder and the generation session use the pure functions `ShiftUp` and `ShiftDown`, which the table methods `ShiftCharacterUp` and `ShiftCharacterDown` are proved equal to. The corrected `ShiftDownFixed` is used only by the corrected statements `ShiftRoundTrip`, `UnshiftRoundTrip` and `EncodeDecodeRoundTripFixed`.
- `Scripts/TineStoriesLoader.cs` is not part of this model.

## Findings

| source | as written | input that shows it | evidently intended | confidence | as-written member | corrected member |
|---|---|---|---|---|---|---|
| Scripts/RunTinyStories.cs:154 | `ShiftCharacterDown` passes every code `<= 256` through | byte 0: `ShiftCharacterUp` maps it to 256, which comes back as U+0100 instead of NUL | pass through only codes `< 256`, so code 256 is looked up to byte 0 and the shift round-trips | not executed | ByteShift.NulIsNotRecovered | ByteShift.ShiftRoundTrip |
