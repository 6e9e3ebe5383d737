# Aura-Tokenizer core, modelled in Dafny

This project models the sequential C++ core of Aura-Tokenizer, a subword tokenizer library. It proves properties of that model. Strings are byte strings (`Str = seq<byte>`, module `Bytes`). Exceptions become `Result` values carrying the exception's message. Objects whose methods update their fields become classes with `modifies` clauses. Each class method is proved against a pure specification function, and lemmas state what the source promises about those functions.

The modules follow the source files:

| module | file | models |
|---|---|---|
| `Utf8` | `utf8.dfy` | `utf8_utils.cpp` and the inline helpers of `utf8_utils.h`: the lead-byte length table, decoding, encoding, validity |
| `Vocabulary` | `vocab.dfy` | `Vocab`: the token↔id maps, the `next_id_` counter, the special-token registry |
| `SpecialTokens` | `specials.dfy` | the configured special tokens every tokenizer registers (`initialize_special_tokens`) |
| `PrefixTrie` | `trie.dfy` | `Trie`: insert and lookups, longest and all prefixes, `serialize`/`deserialize` over a byte buffer |
| `DoubleArray` | `double_array_trie.dfy` | `DoubleArrayTrie`: `resize`, the free list, `find_base`, `clear`, the partial `build` |
| `Bpe` | `bpe.dfy` | `BPETokenizer`: merge rules and ranks, the `encode_bpe` merge loop, encode/decode, `set_vocab` |
| `BpeTraining` | `bpe_trainer.dfy` | `BPETrainer`: setters, word and pair counting, `initialize_vocab`, the training rounds |
| `WordPiece` | `wordpiece.dfy` | `WordPieceModel` (greedy longest match with `##`) and `WordPieceTokenizer` |
| `Unigram` | `unigram.dfy` | `UnigramTokenizer`: the greedy first-match "viterbi" segmenter, encode/decode, `set_vocab(_and_scores)` |
| `UnigramTraining` | `unigram_trainer.dfy` | `UnigramTrainer`: setters, `tokenize_text`, `process_text`, `build_vocab`, the `train` guards |
| `CharLevel` | `char_level.dfy` | `CharLevelTokenizer`: per-byte encode/decode and first-occurrence `train` |
| `Encoding` | `encoder.dfy` | `Encoder`: BOS/EOS wrapping, per-byte ids, contiguous offsets, decode, `post_process` |
| `PostProcessing` | `post_processor.dfy` | BERT, template, chat-template and composite post-processors, `create_post_processor` |
| `TemplateParsing` | `template_parser.dfy` | `TemplateParser::parse` with a direct scanner for the placeholder regex |
| `PreTokenizing` | `pre_tokenizer.dfy` | `RegexPreTokenizer` and `ByteLevelPreTokenizer` |
| `Advanced` | `tokenizer_advanced.dfy` | `TokenizerAdvanced`: construction, `encode`(`_batch`), `decode`(`_batch`), `train`, the configuration mutators |
| `Config` | `config.dfy` | `TokenizerConfig`: `to_string`, the `from_string` cursor loop, `std::stoul`/`std::stoi`, `add_special_token` |
| `VectorConversions` | `vector_conversions.dfy` | the flat and nested vector conversions of the bindings |
| `PythonBinding` | `tokenizer_python.dfy` | `PythonTokenizer`: whitespace encode/decode and the batch forms |
| `TokenizerModels` | `tokenizer_model.dfy` | `TokenizerModel`: the vocabulary, scores and merges container |
| `IcuIntegration` | `icu_integration.dfy` | `ICUPreTokenizer::getOffsetMappings`/`preTokenize` and `ICUNormalizer::normalize` over abstract ICU operations |
| `Plugins` | `plugin_registry.dfy` | `PluginRegistry`: `register_plugin`, `create`, the `instance` singleton |
| `Wrappers`, `Seqs`, `Bytes`, `TokenTypes`, `Files` | | `Option`/`Result`, sequence lemmas, the shared token and enum types, the file system as a map from path to lines |

The model follows what the code does, including behaviour that its names do not suggest:
- The unigram segmenter ignores scores.
- WordPiece keeps the pieces it emitted before the unknown token.
- BPE training never changes `word_counts_`, so every round appends the pair that is best in the unchanged counts.
- `TokenizerAdvanced` with a BPE model wipes its own vocabulary back to the special tokens when it calls `set_vocab`.
- A chat template holding any variable throws: the parser keeps the space after `{{`, so no variable equals `message`.
- `TokenizerConfig::from_string` never restores `vocab_size`. Its '=' follows '{' and not a space, so the parser skips it.

Each of these is proved as stated, not corrected.

## Model

| member | source | states |
|---|---|---|
| Utf8.SequenceLength | Aura-Tokenizer/include/utf8_utils.h:20-26 | the lead-byte table: 1 below 0x80, 2 below 0xE0 (continuation bytes and the overlong leads 0xC0/0xC1 included), 3 below 0xF0, 4 below 0xF8, and 0 exactly when the byte is 0xF8 or above |
| Utf8.ContinuationRange | Aura-Tokenizer/include/utf8_utils.h:29-31 | a byte is a continuation byte exactly when it lies in 0x80-0xBF |
| Utf8.LenientLength | Aura-Tokenizer/src/tokenizer_encoder.cpp:410-416 | the lenient length is always between 1 and 4 |
| Utf8.LenientLengthRanges | Aura-Tokenizer/src/tokenizer_encoder.cpp:410-416 | the masks give 2 exactly on 0xC0-0xDF, 3 on 0xE0-0xEF, 4 on 0xF0-0xF7, and 1 on ASCII and on every byte that cannot lead |
| Utf8.LenientAgrees | Aura-Tokenizer/src/unigram_trainer.cpp:243-257 | on ASCII and on real lead bytes the lenient length agrees with the strict table |
| Utf8.DecodeOne | Aura-Tokenizer/src/utf8_utils.cpp:12-52 | one round of decoding: on success it consumes `sequence_length(lead)` bytes, all present, and yields a code point below 2^21; a failure is one of the three messages |
| Utf8.DecodeOneOk | Aura-Tokenizer/src/utf8_utils.cpp:13-46 | a round succeeds exactly when the lead is valid, the sequence is complete and each following byte is a continuation byte |
| Utf8.Decode | Aura-Tokenizer/src/utf8_utils.cpp:7-59 | never more code points than input bytes; the empty string decodes to no code points |
| Utf8.DecodeBelow | Aura-Tokenizer/src/utf8_utils.cpp:23-51 | every decoded code point is below 0x200000 |
| Utf8.Utf8ToCodepoints | Aura-Tokenizer/src/utf8_utils.cpp:7-59 | the index loop (`i += len`) returns exactly what `Decode` specifies, errors included |
| Utf8.ReadSequence | Aura-Tokenizer/src/utf8_utils.cpp:12-52 | the loop body reads the sequence at `i` as `DecodeOne` specifies |
| Utf8.DecodeAfter | Aura-Tokenizer/src/utf8_utils.cpp:11-56 | the loop invariant survives one decoded sequence and `i` stays in range |
| Utf8.EncodeOne | Aura-Tokenizer/src/utf8_utils.cpp:65-86 | 1, 2, 3 or 4 bytes for a code point up to 0x7F, 0x7FF, 0xFFFF or 0x10FFFF; "Invalid Unicode codepoint" above |
| Utf8.Encode | Aura-Tokenizer/src/utf8_utils.cpp:61-90 | the only error is "Invalid Unicode codepoint"; on success between 1 and 4 bytes per code point |
| Utf8.EncodeOk | Aura-Tokenizer/src/utf8_utils.cpp:65-86 | encoding succeeds exactly when no code point is above 0x10FFFF |
| Utf8.EncodeRejectsAt | Aura-Tokenizer/src/utf8_utils.cpp:84-86 | one code point above 0x10FFFF anywhere makes the whole call throw |
| Utf8.CodepointsToUtf8 | Aura-Tokenizer/src/utf8_utils.cpp:61-90 | the push-back loop returns exactly what `Encode` specifies |
| Utf8.IsValidUtf8 | Aura-Tokenizer/src/utf8_utils.cpp:92-100 | true exactly when `utf8_to_codepoints` does not throw |
| Utf8.EncodeOneDecodes | Aura-Tokenizer/src/utf8_utils.cpp:23-51 | the bytes of one code point up to 0x10FFFF decode, whatever follows them, to that code point and their own length |
| Utf8.RoundTrip | Aura-Tokenizer/src/utf8_utils.cpp:7-90 | for code points up to 0x10FFFF (surrogates included), decoding the encoding gives the code points back |
| Vocabulary.EmptyVocab | Aura-Tokenizer/src/vocab.cpp:7-15 | an empty table is valid and consistent, has size 0 and `next_id_` 0, and answers -1 to every token and special type |
| Vocabulary.GetTokenId | Aura-Tokenizer/src/vocab.cpp:41-44 | -1 exactly for an absent token; a present token's id is below `next_id_` |
| Vocabulary.GetToken | Aura-Tokenizer/src/vocab.cpp:46-49 | "" exactly for an unknown id |
| Vocabulary.GetSpecialTokenId | Aura-Tokenizer/src/vocab.cpp:91-94 | -1 exactly for an unregistered type; a registered type's id is a special id with a text |
| Vocabulary.GetSpecialTokenText | Aura-Tokenizer/src/vocab.cpp:96-99 | "" exactly for an unregistered type |
| Vocabulary.GetSpecialTokens | Aura-Tokenizer/src/vocab.cpp:83-89 | one text per registered type, in the map's visiting order, each a non-empty special token |
| Vocabulary.TokenIdsTexts | Aura-Tokenizer/src/vocab.cpp:41-49 | in a consistent table, looking up the texts of the ids of present tokens gives the tokens back |
| Vocabulary.WithToken | Aura-Tokenizer/src/vocab.cpp:17-27 | an empty or present token changes nothing; otherwise the token gets `next_id_` (negative id) or the given id in both maps, the size grows by one, `next_id_` ends above the assigned id, and every other entry and the special registry stay |
| Vocabulary.WithTokenConsistent | Aura-Tokenizer/src/vocab.cpp:21-26 | an id drawn from `next_id_` is unused, so no two tokens come to share an id |
| Vocabulary.ExplicitIdOverwrites | Aura-Tokenizer/src/vocab.cpp:21-23 | an explicit id already in use is taken: the id's text becomes the new token while the earlier token still maps to that id, so the table is no longer consistent |
| Vocabulary.WithSpecialToken | Aura-Tokenizer/src/vocab.cpp:63-71 | an empty or present token changes nothing (so it is not marked special); otherwise it gets `next_id_`, is registered for its type and as a special id, the size grows by one and every other token and type keeps its id |
| Vocabulary.WithSpecialTokenConsistent | Aura-Tokenizer/src/vocab.cpp:66-70 | registering a special token keeps the table consistent |
| Vocabulary.WithTokensSnoc | Aura-Tokenizer/src/vocab.cpp:35-39 | `add_tokens` of one more string is one more `add_token` |
| Vocabulary.WithTokensEffect | Aura-Tokenizer/src/vocab.cpp:35-39 | afterwards every non-empty string is present, the table is valid and consistent, it grew by at most one token per string, and earlier tokens keep their ids |
| Vocabulary.WithTokensOnly | Aura-Tokenizer/src/vocab.cpp:35-39 | `add_tokens` adds nothing but its own strings |
| Vocabulary.Vocab.constructor | Aura-Tokenizer/src/vocab.cpp:7 | a new table is the empty table |
| Vocabulary.Vocab.Clear | Aura-Tokenizer/src/vocab.cpp:9-15 | the four maps are emptied and `next_id_` is 0 |
| Vocabulary.Vocab.AddToken | Aura-Tokenizer/src/vocab.cpp:17-27 | the new table is `WithToken` of the old one |
| Vocabulary.Vocab.AddTokenWithScore | Aura-Tokenizer/src/vocab.cpp:29-33 | the score is dropped: the same change as `add_token` |
| Vocabulary.Vocab.AddTokens | Aura-Tokenizer/src/vocab.cpp:35-39 | the loop's new table is `WithTokens` of the old one |
| Vocabulary.Vocab.AddSpecialToken | Aura-Tokenizer/src/vocab.cpp:63-71 | the new table is `WithSpecialToken` of the old one |
| PrefixTrie.IdOfEmptyNode | Aura-Tokenizer/src/trie.cpp:43-51 | a fresh or cleared trie answers -1 for every key |
| PrefixTrie.InsertThenGet | Aura-Tokenizer/src/trie.cpp:19-30 | after `insert(key, id)`, `get_id(key)` is `id` |
| PrefixTrie.InsertOther | Aura-Tokenizer/src/trie.cpp:19-30 | inserting one key leaves every other key's id unchanged, prefixes of the key included |
| PrefixTrie.FollowIdOf | Aura-Tokenizer/src/trie.cpp:43-51 | `get_id` is -1 when the path breaks, else the end node's id |
| PrefixTrie.FollowNoneExtends | Aura-Tokenizer/src/trie.cpp:58-61 | once the walk falls off the tree no longer text is a key, which is why the scans may stop there |
| PrefixTrie.MatchesSound | Aura-Tokenizer/src/trie.cpp:76-83 | every pair `all_prefixes` reports is (id, length) of a key that prefixes `text[start..]` |
| PrefixTrie.MatchesSorted | Aura-Tokenizer/src/trie.cpp:76-83 | reported lengths strictly increase |
| PrefixTrie.MatchesComplete | Aura-Tokenizer/src/trie.cpp:76-83 | every key that prefixes `text[start..]` is reported |
| PrefixTrie.LastIsLongest | Aura-Tokenizer/src/trie.cpp:53-86 | the last pair of `all_prefixes` is the longest key prefixing `text[start..]`; with none it is (-1, 0) |
| PrefixTrie.LittleEndianRoundTrip | Aura-Tokenizer/src/trie.cpp:105 | the little-endian bytes of a number in range read back as that number |
| PrefixTrie.U64RoundTrip | Aura-Tokenizer/src/trie.cpp:104-105 | a `size_t` copied into the buffer reads back unchanged |
| PrefixTrie.I32RoundTrip | Aura-Tokenizer/src/trie.cpp:113-116 | an `int` id (negative ones included) copied into the buffer reads back unchanged |
| PrefixTrie.U64AtRoundTrip | Aura-Tokenizer/src/trie.cpp:135 | `memcpy` of a `size_t` from where its bytes were written gives it back |
| PrefixTrie.I32AtRoundTrip | Aura-Tokenizer/src/trie.cpp:148 | `memcpy` of an `int` from where its bytes were written gives it back |
| PrefixTrie.ReadNode | Aura-Tokenizer/src/trie.cpp:141-164 | a node read successfully ends at least 12 bytes on and within the buffer |
| PrefixTrie.ReadChildren | Aura-Tokenizer/src/trie.cpp:155-161 | the child loop never reads past the buffer |
| PrefixTrie.RecordParts | Aura-Tokenizer/src/trie.cpp:112-123 | a node record is its id, its child count and its child records, in that order |
| PrefixTrie.ReadNodeRecord | Aura-Tokenizer/src/trie.cpp:112-123 | reading a node record back gives the node and stops right after the record |
| PrefixTrie.ReadNodeFields | Aura-Tokenizer/src/trie.cpp:141-164 | `deserialize_node` is its header fields followed by its child loop |
| PrefixTrie.ReadChildrenStep | Aura-Tokenizer/src/trie.cpp:155-161 | one turn of the child loop reads a byte and a node and binds them |
| PrefixTrie.Trie.constructor | Aura-Tokenizer/src/trie.cpp:12 | an empty root and size 0 |
| PrefixTrie.Trie.Insert | Aura-Tokenizer/src/trie.cpp:14-31 | throws on an empty key with nothing changed; otherwise stores `id` at the key's end node, and `size_` grows (modulo 2^64) exactly when that node had id -1 |
| PrefixTrie.Trie.GetId | Aura-Tokenizer/src/trie.cpp:43-51 | the walking loop answers `IdOf` |
| PrefixTrie.Trie.ContainsKey | Aura-Tokenizer/src/trie.cpp:33-41 | true exactly when the path exists and ends at a token end |
| PrefixTrie.Trie.AllPrefixes | Aura-Tokenizer/src/trie.cpp:72-86 | the scanning loop reports exactly `Matches`, which `MatchesSound`, `MatchesSorted` and `MatchesComplete` characterise |
| PrefixTrie.Trie.LongestPrefix | Aura-Tokenizer/src/trie.cpp:53-70 | (-1, 0) when no key prefixes `text[start..]`; otherwise the id and length of a key that does, and no longer key does |
| PrefixTrie.Trie.Clear | Aura-Tokenizer/src/trie.cpp:88-91 | an empty root and size 0 |
| PrefixTrie.Trie.Serialize | Aura-Tokenizer/src/trie.cpp:99-123 | the buffer is the 8-byte count followed by the pre-order node records |
| PrefixTrie.Trie.Deserialize | Aura-Tokenizer/src/trie.cpp:125-139 | clears; a buffer under 8 bytes throws; otherwise `size_` is the header and the root is the record read after it, or the read's exception with the root left empty |
| PrefixTrie.SerializeRoundTrip | Aura-Tokenizer/src/trie.cpp:99-164 | deserialising what `serialize` wrote gives back the same count and the same tree, and consumes the whole buffer |
| DoubleArray.RangeSorted | Aura-Tokenizer/src/double_array_trie.cpp:19-21 | the indices appended by `resize` are strictly increasing and are exactly those from the old to the new capacity |
| DoubleArray.LowerBound | Aura-Tokenizer/src/double_array_trie.cpp:100 | `std::lower_bound`: every element before the position is smaller, the one at it is not |
| DoubleArray.RemoveSortedSpec | Aura-Tokenizer/src/double_array_trie.cpp:100-101 | on a strictly increasing free list the erase removes exactly the given index, if present, and keeps the order |
| DoubleArray.AppendSorted | Aura-Tokenizer/src/double_array_trie.cpp:19-23 | new indices above every listed one keep the list sorted, so the `std::sort` changes nothing |
| DoubleArray.DoubleArrayTrie.constructor | Aura-Tokenizer/src/double_array_trie.cpp:55-58 | capacity 1024, size 0, default cells with the root's check 0, and the free list 0..1023: unlike `clear`, the root stays listed as free though it is in use |
| DoubleArray.DoubleArrayTrie.Resize | Aura-Tokenizer/src/double_array_trie.cpp:12-25 | a no-op unless the capacity grows; otherwise both arrays grow with default cells, the new indices are appended to the sorted free list and the capacity is set |
| DoubleArray.DoubleArrayTrie.FindBase | Aura-Tokenizer/src/double_array_trie.cpp:28-51 | returns a base at which every requested byte lands on an unused cell inside the arrays; existing cells are kept and only grown arrays add default cells |
| DoubleArray.DoubleArrayTrie.Probe | Aura-Tokenizer/src/double_array_trie.cpp:31-41 | the inner loop reports no conflict only when every byte lands on an unused cell, growing past the end as needed |
| DoubleArray.DoubleArrayTrie.Clear | Aura-Tokenizer/src/double_array_trie.cpp:111-121 | capacity 1024, size 0, default cells except the root's check 0, default fail links, and the free list 1..1023 holding exactly the unused cells |
| DoubleArray.DoubleArrayTrie.Siblings | Aura-Tokenizer/src/double_array_trie.cpp:79-87 | the bytes listed are exactly those whose cell, from the parent's base and inside the capacity, checks back to the parent, in strictly increasing order; none are listed when the parent's base is 0 |
| DoubleArray.DoubleArrayTrie.Descend | Aura-Tokenizer/src/double_array_trie.cpp:70-103 | one step of the walk ends on a cell `base + c` that checks back to the parent; only the parent's base and the claimed cell change, and no value moves |
| DoubleArray.DoubleArrayTrie.Rebase | Aura-Tokenizer/src/double_array_trie.cpp:79-91 | the parent gets a base whose target for `c` is unused; no existing cell's check changes, so the parent's earlier children are not moved |
| DoubleArray.DoubleArrayTrie.MoveBase | Aura-Tokenizer/src/double_array_trie.cpp:88-91 | after `find_base` over the listed children and `c`, the parent's new base sends `c` and every listed child byte to an unused cell, and no other cell changes |
| DoubleArray.DoubleArrayTrie.Claim | Aura-Tokenizer/src/double_array_trie.cpp:97-102 | the new cell's check becomes the parent and the cell leaves the free list, which still lists exactly the unused cells |
| DoubleArray.DoubleArrayTrie.AddEntry | Aura-Tokenizer/src/double_array_trie.cpp:65-107 | the entry's value lands in the cell its key's walk ends on and no other cell's value changes; `size_` grows by one exactly when the value is not -1; walking the key afterwards finds the value unless the key starts with byte 0 |
| DoubleArray.DoubleArrayTrie.Build | Aura-Tokenizer/src/double_array_trie.cpp:60-108 | starts from `clear`; `size_` counts the entries whose value is not -1, duplicates included; the last entry's key walks to its value |
| DoubleArray.PathWalk | Aura-Tokenizer/src/double_array_trie.cpp:70-104 | the cells the loop visits are the cells walking the key reaches |
| DoubleArray.WalkIgnoresValues | Aura-Tokenizer/src/double_array_trie.cpp:105 | writing a value does not change where any key's walk leads |
| DoubleArray.PathExtend | Aura-Tokenizer/src/double_array_trie.cpp:72-103 | one step of the walk keeps the path walked so far and extends it with a cell not already on it |
| DoubleArray.ValuedCount | Aura-Tokenizer/src/double_array_trie.cpp:106 | no more than one count per entry |
| DoubleArray.ValuedCountAll | Aura-Tokenizer/src/double_array_trie.cpp:106 | with every value a real id, `size_` counts every entry, a repeated key twice |
| Bpe.PairKey | Aura-Tokenizer/src/bpe_tokenizer.cpp:195 | the pair key is the first part, one space, then the second part |
| Bpe.RanksOfSpec | Aura-Tokenizer/src/bpe_tokenizer.cpp:219-224 | a key is ranked exactly when some rule has it, and its rank is the last index of such a rule |
| Bpe.RanksNonNegative | Aura-Tokenizer/src/bpe_tokenizer.cpp:221-222 | ranks are rule indices, never negative |
| Bpe.ParseRuleSpec | Aura-Tokenizer/src/bpe_tokenizer.cpp:163-168 | a string yields a rule exactly when it holds a space; the split is at the first space, so the first part holds none and the rule's key is the string again |
| Bpe.ParseRulesKeys | Aura-Tokenizer/src/bpe_tokenizer.cpp:161-171 | writing the parsed rules back as "first second" gives exactly the strings that hold a space, in order |
| Bpe.InitialParts | Aura-Tokenizer/src/bpe_tokenizer.cpp:188-189 | one single-byte part per byte of the word |
| Bpe.BestFrom | Aura-Tokenizer/src/bpe_tokenizer.cpp:194-203 | a pair found by the scan is ranked and lies at or after the start |
| Bpe.BestPairSpec | Aura-Tokenizer/src/bpe_tokenizer.cpp:192-204 | no pair is found exactly when no adjacent pair is ranked; otherwise the found pair is the leftmost one of smallest rank |
| Bpe.BestUnique | Aura-Tokenizer/src/bpe_tokenizer.cpp:198 | the strict `<` makes the chosen pair unique: the leftmost of minimal rank |
| Bpe.MergeAt | Aura-Tokenizer/src/bpe_tokenizer.cpp:206-207 | a merge removes exactly one part |
| Bpe.MergeAtConcat | Aura-Tokenizer/src/bpe_tokenizer.cpp:206-207 | a merge does not change what the parts spell |
| Bpe.MergeAllSpec | Aura-Tokenizer/src/bpe_tokenizer.cpp:191-208 | after the loop the parts still spell the word, none is empty, there are no more than at the start, a non-empty word keeps at least one, and no adjacent pair is ranked |
| Bpe.SegmentSpec | Aura-Tokenizer/src/bpe_tokenizer.cpp:185-208 | the empty word gives no parts and only it does; the parts spell the word, are non-empty, number at most its length, and leave no ranked adjacent pair |
| Bpe.PartToken | Aura-Tokenizer/src/bpe_tokenizer.cpp:211-215 | a part's token carries the part; its id is the vocabulary id when present, else the UNK id |
| Bpe.WordTokensText | Aura-Tokenizer/src/bpe_tokenizer.cpp:185-217 | the texts of `encode_bpe(word)` spell the word |
| Bpe.UnknownPartId | Aura-Tokenizer/src/bpe_tokenizer.cpp:211-215 | a part the vocabulary lacks gets the UNK special's id, which is -1 when no UNK is registered |
| Bpe.DecodeEncodeWord | Aura-Tokenizer/src/bpe_tokenizer.cpp:81-87 | with a consistent vocabulary holding every part, decoding the ids of `encode_bpe(word)` gives the word |
| Bpe.WordsTokensText | Aura-Tokenizer/src/bpe_tokenizer.cpp:44-52 | the token texts of `encode` are the words concatenated |
| Bpe.EncodeText | Aura-Tokenizer/src/bpe_tokenizer.cpp:44-52 | the token texts of `encode` are the normalized text with its whitespace removed |
| Bpe.BpeTokenizer.constructor | Aura-Tokenizer/src/bpe_tokenizer.cpp:11-16 | a fresh vocabulary holding only the configured specials, and no rules or ranks |
| Bpe.BpeTokenizer.InitializeSpecialTokens | Aura-Tokenizer/src/bpe_tokenizer.cpp:20-36 | the shared vocabulary is cleared and then holds exactly the non-empty specials, registered in the order UNK, PAD, BOS, EOS, MASK, SEP, CLS |
| Bpe.BpeTokenizer.SetConfig | Aura-Tokenizer/src/bpe_tokenizer.cpp:38-42 | the new configuration's specials replace the whole vocabulary |
| Bpe.BpeTokenizer.SetVocab | Aura-Tokenizer/src/bpe_tokenizer.cpp:155-158 | the given vocabulary is adopted and then cleared, so only the configured specials remain in it, and `special_tokens_` is rebuilt as the map of the non-empty configured specials |
| Bpe.BpeTokenizer.BuildMergeRanks | Aura-Tokenizer/src/bpe_tokenizer.cpp:219-224 | the ranks become `RanksOf(rules)`, the last index per key |
| Bpe.BpeTokenizer.SetMergeRules | Aura-Tokenizer/src/bpe_tokenizer.cpp:161-171 | the rules become the parsed strings and the ranks are rebuilt |
| Bpe.BpeTokenizer.AddSpecialTokens | Aura-Tokenizer/src/bpe_tokenizer.cpp:143-149 | each non-empty string not yet present is registered as a CUSTOM special |
| Bpe.BpeTokenizer.EncodeBpe | Aura-Tokenizer/src/bpe_tokenizer.cpp:185-217 | the merge loop and lookup return `WordTokens`, the tokens of `Segment` |
| Bpe.BpeTokenizer.Encode | Aura-Tokenizer/src/bpe_tokenizer.cpp:44-52 | `encode_bpe` of each whitespace-separated word of the normalized text, concatenated |
| Bpe.BpeTokenizer.EncodeToIds | Aura-Tokenizer/src/bpe_tokenizer.cpp:54-62 | the ids of `encode(text)`, in order |
| Bpe.BpeTokenizer.DecodeFromIds | Aura-Tokenizer/src/bpe_tokenizer.cpp:81-87 | the texts of the ids concatenated, "" for unknown ids; post-processing is the identity |
| Bpe.BestMerge | Aura-Tokenizer/src/bpe_tokenizer.cpp:192-203 | -1 exactly when no adjacent pair is ranked; otherwise the leftmost pair of smallest rank |
| Bpe.SplitBytes | Aura-Tokenizer/src/bpe_tokenizer.cpp:188-189 | the parts are the word's single bytes |
| Bpe.MergeParts | Aura-Tokenizer/src/bpe_tokenizer.cpp:191-208 | the in-place loop computes `MergeAll`, which `MergeAllSpec` characterises |
| Bpe.LookUpParts | Aura-Tokenizer/src/bpe_tokenizer.cpp:210-216 | one token per part, with the part's id or the UNK id |
| BpeTraining.EndOfWord | Aura-Tokenizer/src/bpe_trainer.cpp:43 | the end-of-word marker is four bytes and holds no space |
| BpeTraining.Bump | Aura-Tokenizer/src/bpe_trainer.cpp:44 | `counts[k] += n` adds `k` to the keys, raises its count (0 when missing) by `n` and leaves every other count alone |
| BpeTraining.Suffixed | Aura-Tokenizer/src/bpe_trainer.cpp:42-44 | every word of a line, in order, with the end-of-word marker appended |
| BpeTraining.CountOfSpec | Aura-Tokenizer/src/bpe_trainer.cpp:33-48 | the word-count map holds exactly the words that occur, each with its number of occurrences |
| BpeTraining.CorpusWordsShape | Aura-Tokenizer/src/bpe_trainer.cpp:40-44 | every counted word is whitespace-free and at least four bytes long |
| BpeTraining.CorpusCountsNoSpace | Aura-Tokenizer/src/bpe_trainer.cpp:33-48 | no key of the word counts holds a space |
| BpeTraining.CountsPositive | Aura-Tokenizer/src/bpe_trainer.cpp:44 | every word count is at least 1 |
| BpeTraining.CountOfEmpty | Aura-Tokenizer/src/bpe_trainer.cpp:33-48 | the word counts are empty exactly when the corpus yields no word |
| BpeTraining.CorpusWellCounted | Aura-Tokenizer/src/bpe_trainer.cpp:92 | the word counts `train` builds are positive and space-free |
| BpeTraining.ByteCountsKeys | Aura-Tokenizer/src/bpe_trainer.cpp:94-99 | every key of the initial counts is a single byte |
| BpeTraining.Frequent | Aura-Tokenizer/src/bpe_trainer.cpp:144-148 | the bytes added are exactly those whose count reaches the minimum frequency |
| BpeTraining.InitialVocabSpec | Aura-Tokenizer/src/bpe_trainer.cpp:134-149 | the seeded vocabulary is valid and consistent, holds every non-empty configured special and every frequent byte, and has at most seven entries beyond the frequent bytes |
| BpeTraining.PairCountsSpec | Aura-Tokenizer/src/bpe_trainer.cpp:50-61 | with positive word counts every pair count is positive, and some pair exists once a word has two bytes |
| BpeTraining.BestOfSpec | Aura-Tokenizer/src/bpe_trainer.cpp:107-114 | the scan yields the largest count (0 when none is positive) and, when positive, the first pair in visiting order with that count |
| BpeTraining.FindSub | Aura-Tokenizer/src/bpe_trainer.cpp:125 | a found position is at or after the start and the pattern occurs there |
| BpeTraining.FindSubNoSpace | Aura-Tokenizer/src/bpe_trainer.cpp:125 | the pattern "first second" is never found in a word without a space |
| BpeTraining.ReplacePairNoSpace | Aura-Tokenizer/src/bpe_trainer.cpp:123-127 | a word without a space leaves the replace loop unchanged |
| BpeTraining.RewrittenUnchanged | Aura-Tokenizer/src/bpe_trainer.cpp:121-130 | when no word holds a space, the rebuilt counts are the old counts of the visited words |
| BpeTraining.RoundKeepsCounts | Aura-Tokenizer/src/bpe_trainer.cpp:121-130 | visiting each word once, a round rebuilds exactly the word-count map it started from |
| BpeTraining.RulesUpTo | Aura-Tokenizer/src/bpe_trainer.cpp:117 | the first `n` rounds append `n` rules |
| BpeTraining.TokensUpTo | Aura-Tokenizer/src/bpe_trainer.cpp:118-119 | the first `n` rounds add `n` tokens |
| BpeTraining.UpToSpec | Aura-Tokenizer/src/bpe_trainer.cpp:117-119 | rule `r` and token `r` are the pair round `r` picks and its concatenation |
| BpeTraining.Rounds | Aura-Tokenizer/src/bpe_trainer.cpp:103 | the loop runs at most as many rounds as tokens are missing up to the target size |
| BpeTraining.RoundMerges | Aura-Tokenizer/src/bpe_trainer.cpp:104-115 | a round merges (neither `break` is taken) exactly when there is a word |
| BpeTraining.PickIsMaximal | Aura-Tokenizer/src/bpe_trainer.cpp:107-117 | each appended rule is a pair of maximal count in its round's pair counts, and that count is at least 1 |
| BpeTraining.BpeTrainer.constructor | Aura-Tokenizer/src/bpe_trainer.cpp:9-15 | the limits come from the configuration; maps and rules start empty |
| BpeTraining.BpeTrainer.SetVocabSize | Aura-Tokenizer/src/bpe_trainer.cpp:17-21 | 0 is refused with its message and nothing changes; otherwise the field and the configuration both take the size |
| BpeTraining.BpeTrainer.SetMinFrequency | Aura-Tokenizer/src/bpe_trainer.cpp:23-27 | 0 is refused with its message and nothing changes; otherwise the field and the configuration both take the value |
| BpeTraining.BpeTrainer.GetWordCounts | Aura-Tokenizer/src/bpe_trainer.cpp:33-48 | the counts of the suffixed whitespace-separated words of the normalized, optionally lower-cased corpus |
| BpeTraining.BpeTrainer.InitializeVocab | Aura-Tokenizer/src/bpe_trainer.cpp:134-149 | the vocabulary becomes the cleared one with the configured specials, then the frequent bytes |
| BpeTraining.BpeTrainer.Train | Aura-Tokenizer/src/bpe_trainer.cpp:88-132 | an empty corpus is refused before anything changes; otherwise the word counts are rebuilt, the vocabulary seeded, and each of the loop's rounds appends its picked pair as a rule and its concatenation as a token |
| BpeTraining.BpeTrainer.TrainFromFiles | Aura-Tokenizer/src/bpe_trainer.cpp:163-176 | no paths, or a path that cannot be opened, is refused with its message before anything changes; otherwise `train` runs on the non-empty lines of all files in order |
| BpeTraining.BpeTrainer.TrainFromFile | Aura-Tokenizer/src/bpe_trainer.cpp:151-161 | a path that cannot be opened is refused with "Failed to open training file: " and its name before anything changes; otherwise `train` runs on the file's non-empty lines in order with the trainer's own vocabulary size, so a file with no non-empty line is refused as an empty corpus |
| BpeTraining.BpeTrainer.Prepare | Aura-Tokenizer/src/bpe_trainer.cpp:92-101 | the word counts and the seeded vocabulary before the loop |
| BpeTraining.BpeTrainer.RunRounds | Aura-Tokenizer/src/bpe_trainer.cpp:103-131 | the loop appends exactly `Rounds` rules and tokens and leaves the word counts as they were |
| BpeTraining.BpeTrainer.Round | Aura-Tokenizer/src/bpe_trainer.cpp:104-130 | a round recomputes the pair counts, merges exactly when there is a pair of positive count, and then appends the first best pair and its token |
| BpeTraining.BpeTrainer.ApplyMerge | Aura-Tokenizer/src/bpe_trainer.cpp:117-130 | the rule is appended, the concatenation added as a fresh token, and the word counts stay the same |
| BpeTraining.ReadCorpus | Aura-Tokenizer/src/bpe_trainer.cpp:166-174 | the first path that cannot be opened is reported; otherwise the non-empty lines of all files, in order |
| BpeTraining.CountLine | Aura-Tokenizer/src/bpe_trainer.cpp:42-45 | counting a line's words gives the counts of the words seen so far plus the suffixed words of the line |
| BpeTraining.CountBytes | Aura-Tokenizer/src/bpe_trainer.cpp:94-99 | the loop builds the byte counts of the words in visiting order |
| BpeTraining.GetPairCounts | Aura-Tokenizer/src/bpe_trainer.cpp:50-61 | the loop builds the adjacent-byte pair counts of the words in visiting order |
| BpeTraining.PickBest | Aura-Tokenizer/src/bpe_trainer.cpp:107-114 | the scan returns the best pair and count that `BestOfSpec` characterizes |
| BpeTraining.RewriteWords | Aura-Tokenizer/src/bpe_trainer.cpp:121-130 | each visited word, rewritten, keeps its count |
| BpeTraining.ReplaceLoop | Aura-Tokenizer/src/bpe_trainer.cpp:124-127 | the replace loop yields the word with every "first second" occurrence merged, left to right |
| WordPiece.ContinuationPrefix | Aura-Tokenizer/src/wordpiece_model.cpp:33-35 | the continuation prefix is the two bytes "##" |
| WordPiece.LongestEndSpec | Aura-Tokenizer/src/wordpiece_model.cpp:28-42 | the inner loop picks the longest candidate in the vocabulary from `start`; `None` means no candidate is in it |
| WordPiece.PiecesSpec | Aura-Tokenizer/src/wordpiece_model.cpp:19-52 | at most one piece per byte; every piece is in the vocabulary except a final unknown token, present exactly when the word is not covered; pieces past position 0 carry "##" |
| WordPiece.Strip | Aura-Tokenizer/src/wordpiece_tokenizer.cpp:88-92 | a piece starting with "##" loses exactly those two bytes; any other piece is kept |
| WordPiece.StripAll | Aura-Tokenizer/src/wordpiece_tokenizer.cpp:87-94 | every piece stripped, in order |
| WordPiece.PiecesDecode | Aura-Tokenizer/src/wordpiece_model.cpp:27-50 | past position 0, the pieces of a covered word decode back to the rest of the word |
| WordPiece.DecodeWordPieces | Aura-Tokenizer/src/wordpiece_model.cpp:19-52 | decoding the pieces of a covered word that does not begin with "##" gives the word back |
| WordPiece.DecodeDropsLeadingPrefix | Aura-Tokenizer/src/wordpiece_tokenizer.cpp:103-105 | a word "##a" found whole decodes to "a": the round trip fails for words beginning with "##" |
| WordPiece.WordPieceModel.constructor | Aura-Tokenizer/include/wordpiece_model.h:21 | the model starts with an empty vocabulary and unknown token |
| WordPiece.WordPieceModel.Initialize | Aura-Tokenizer/src/wordpiece_model.cpp:9-17 | all three fields take the given values |
| WordPiece.WordPieceModel.Tokenize | Aura-Tokenizer/src/wordpiece_model.cpp:19-52 | the loop yields the greedy longest-match pieces that `PiecesSpec` characterizes |
| WordPiece.WordPieceModel.BatchTokenize | Aura-Tokenizer/src/wordpiece_model.cpp:54-61 | one piece list per word, in order |
| WordPiece.LongestPiece | Aura-Tokenizer/src/wordpiece_model.cpp:28-42 | the inner loop finds a piece exactly when one exists, and its end is the longest one |
| WordPiece.DecodeUnknownId | Aura-Tokenizer/src/wordpiece_tokenizer.cpp:98-109 | an id the vocabulary does not know decodes to the empty string |
| WordPiece.WithModelVocabEffect | Aura-Tokenizer/src/wordpiece_tokenizer.cpp:182-190 | copying the model's vocabulary never moves a token the shared vocabulary had, and every non-empty model token ends up present |
| WordPiece.WithModelVocabIds | Aura-Tokenizer/src/wordpiece_tokenizer.cpp:185-189 | a token new to the shared vocabulary receives the model's id for it |
| WordPiece.WordPieceTokenizer.constructor | Aura-Tokenizer/src/wordpiece_tokenizer.cpp:6-12 | a fresh vocabulary holding the configured specials and then the added tokens as CUSTOM specials; no model |
| WordPiece.WordPieceTokenizer.InitializeSpecialTokens | Aura-Tokenizer/src/wordpiece_tokenizer.cpp:16-51 | the configured specials and the added tokens are registered in the uncleared vocabulary; the type map keeps earlier entries and takes the configured ones |
| WordPiece.WordPieceTokenizer.Encode | Aura-Tokenizer/src/wordpiece_tokenizer.cpp:53-69 | without a model, the error; otherwise one token per piece of the normalized text, with the shared vocabulary's id and special flag |
| WordPiece.WordPieceTokenizer.EncodeToIds | Aura-Tokenizer/src/wordpiece_tokenizer.cpp:71-83 | without a model, the error; otherwise the shared vocabulary's id of each piece, -1 when missing |
| WordPiece.WordPieceTokenizer.Decode | Aura-Tokenizer/src/wordpiece_tokenizer.cpp:85-96 | the tokens' texts, each with one leading "##" removed, concatenated |
| WordPiece.WordPieceTokenizer.DecodeFromIds | Aura-Tokenizer/src/wordpiece_tokenizer.cpp:98-109 | the ids' texts, each with one leading "##" removed, concatenated |
| WordPiece.WordPieceTokenizer.BatchEncode | Aura-Tokenizer/src/wordpiece_tokenizer.cpp:111-118 | without a model, the first text's `encode_to_ids` throws "WordPieceModel not set for WordPieceTokenizer.", and an empty batch gives the empty list; with a model, one id list per text, in order |
| WordPiece.WordPieceTokenizer.BatchDecode | Aura-Tokenizer/src/wordpiece_tokenizer.cpp:120-127 | one decoded text per id list, in order |
| WordPiece.WordPieceTokenizer.Save | Aura-Tokenizer/src/wordpiece_tokenizer.cpp:129-131 | `save` always throws "WordPieceTokenizer::save not implemented yet." |
| WordPiece.WordPieceTokenizer.Load | Aura-Tokenizer/src/wordpiece_tokenizer.cpp:133-135 | `load` always throws "WordPieceTokenizer::load not implemented yet." |
| WordPiece.WordPieceTokenizer.Train | Aura-Tokenizer/src/wordpiece_tokenizer.cpp:137-139 | training always fails with its message |
| WordPiece.WordPieceTokenizer.AddSpecialTokens | Aura-Tokenizer/src/wordpiece_tokenizer.cpp:141-145 | each string is registered as a CUSTOM special, in order |
| WordPiece.WordPieceTokenizer.GetSpecialTokens | Aura-Tokenizer/src/wordpiece_tokenizer.cpp:147-153 | the recorded texts in the map's visiting order |
| WordPiece.WordPieceTokenizer.GetSpecialTokenId | Aura-Tokenizer/src/wordpiece_tokenizer.cpp:159-165 | -1 for an unrecorded type, else the vocabulary id of its recorded text |
| WordPiece.WordPieceTokenizer.SetConfig | Aura-Tokenizer/src/wordpiece_tokenizer.cpp:171-175 | the configuration is replaced and its specials registered again |
| WordPiece.WordPieceTokenizer.SetVocab | Aura-Tokenizer/src/wordpiece_tokenizer.cpp:177-180 | the shared vocabulary is replaced and the specials registered in the new one |
| WordPiece.WordPieceTokenizer.SetWordPieceModel | Aura-Tokenizer/src/wordpiece_tokenizer.cpp:182-190 | the model is stored and, when present, its (token, id) pairs are added to the shared vocabulary in visiting order |
| WordPiece.UnpiecedSnoc | Aura-Tokenizer/src/wordpiece_tokenizer.cpp:87-94 | decoding one more piece appends that piece, stripped |
| WordPiece.EncodeDecode | Aura-Tokenizer/src/wordpiece_tokenizer.cpp:71-109 | with a consistent vocabulary holding every piece, the ids of a covered normalized text that does not begin with "##" decode back to it |
| WordPiece.DecodeEncodedTokens | Aura-Tokenizer/src/wordpiece_tokenizer.cpp:53-96 | the tokens of a covered normalized text that does not begin with "##" decode back to it, whatever the shared vocabulary holds |
| Unigram.ScanSpec | Aura-Tokenizer/src/unigram_tokenizer.cpp:187-203 | the scan's segments spell the pending bytes and the rest of the text, are non-empty, are emitted at the first length the vocabulary holds, and all but the last are tokens |
| Unigram.GrownPrefixes | Aura-Tokenizer/src/unigram_tokenizer.cpp:190-193 | appending one byte to a pending segment that is not a token extends the run of non-token prefixes by one |
| Unigram.FallbackUnreachable | Aura-Tokenizer/src/unigram_tokenizer.cpp:205-210 | the one-byte-per-segment fallback never runs: a non-empty text always yields a segment |
| Unigram.SegmentSpec | Aura-Tokenizer/src/unigram_tokenizer.cpp:180-213 | the segments spell the text, are non-empty, each is the shortest token prefix it could be, all but the last are tokens, and there are segments exactly when the text is non-empty |
| Unigram.DecodeSegments | Aura-Tokenizer/src/unigram_tokenizer.cpp:77-102 | with a consistent vocabulary, decoding the ids of the segments gives the text back, except that an unknown last segment is lost |
| Unigram.DecodedKnownInit | Aura-Tokenizer/src/unigram_tokenizer.cpp:96-102 | when all segments but the last are known, decoding their ids gives all of them but an unknown last one |
| Unigram.DecodeTokensSegments | Aura-Tokenizer/src/unigram_tokenizer.cpp:65-94 | decoding the tokens of the segments gives the text back, known segments or not |
| Unigram.UnigramTokenizer.constructor | Aura-Tokenizer/src/unigram_tokenizer.cpp:8-14 | a fresh vocabulary holding the configured specials, then the added tokens as CUSTOM specials; no scores |
| Unigram.UnigramTokenizer.InitializeSpecialTokens | Aura-Tokenizer/src/unigram_tokenizer.cpp:18-53 | the configured specials and the added tokens are registered in the uncleared vocabulary; the type map keeps earlier entries and takes the configured ones |
| Unigram.UnigramTokenizer.PreTokenize | Aura-Tokenizer/src/unigram_tokenizer.cpp:55-63 | one single-byte string per byte, which spell the text again |
| Unigram.UnigramTokenizer.ViterbiSegment | Aura-Tokenizer/src/unigram_tokenizer.cpp:180-213 | the loop yields the segmentation that `SegmentSpec` characterizes |
| Unigram.UnigramTokenizer.Encode | Aura-Tokenizer/src/unigram_tokenizer.cpp:65-75 | one token per segment of the normalized text, with its id (-1 when unknown) and special flag |
| Unigram.UnigramTokenizer.EncodeToIds | Aura-Tokenizer/src/unigram_tokenizer.cpp:77-86 | the id of each segment of the normalized text, -1 when unknown |
| Unigram.UnigramTokenizer.Decode | Aura-Tokenizer/src/unigram_tokenizer.cpp:88-94 | the tokens' texts concatenated |
| Unigram.UnigramTokenizer.DecodeFromIds | Aura-Tokenizer/src/unigram_tokenizer.cpp:96-102 | the ids' texts concatenated, the empty text for unknown ids |
| Unigram.UnigramTokenizer.BatchEncode | Aura-Tokenizer/src/unigram_tokenizer.cpp:104-111 | one id list per text, in order |
| Unigram.UnigramTokenizer.BatchDecode | Aura-Tokenizer/src/unigram_tokenizer.cpp:113-120 | one decoded text per id list, in order |
| Unigram.UnigramTokenizer.AddSpecialTokens | Aura-Tokenizer/src/unigram_tokenizer.cpp:134-138 | each string is registered as a CUSTOM special, in order |
| Unigram.UnigramTokenizer.GetSpecialTokens | Aura-Tokenizer/src/unigram_tokenizer.cpp:140-146 | the recorded texts in the map's visiting order |
| Unigram.UnigramTokenizer.GetSpecialTokenId | Aura-Tokenizer/src/unigram_tokenizer.cpp:152-158 | -1 for an unrecorded type, else the vocabulary id of its recorded text |
| Unigram.UnigramTokenizer.SetConfig | Aura-Tokenizer/src/unigram_tokenizer.cpp:164-168 | the configuration is replaced and its specials registered again |
| Unigram.UnigramTokenizer.SetVocab | Aura-Tokenizer/src/unigram_tokenizer.cpp:170-173 | the vocabulary is replaced and the specials registered in the new one |
| Unigram.UnigramTokenizer.SetVocabAndScores | Aura-Tokenizer/src/unigram_tokenizer.cpp:175-178 | vocabulary and scores are replaced and nothing is registered |
| Unigram.UnigramTokenizer.Save | Aura-Tokenizer/src/unigram_tokenizer.cpp:122-124 | `save` always throws "UnigramTokenizer::save not implemented yet." |
| Unigram.UnigramTokenizer.Load | Aura-Tokenizer/src/unigram_tokenizer.cpp:126-128 | `load` always throws "UnigramTokenizer::load not implemented yet." |
| Unigram.UnigramTokenizer.Train | Aura-Tokenizer/src/unigram_tokenizer.cpp:130-132 | training always fails with its message |
| UnigramTraining.ChunksConcat | Aura-Tokenizer/src/unigram_trainer.cpp:243-260 | the character chunks spell the text again |
| UnigramTraining.ChunksLengths | Aura-Tokenizer/src/unigram_trainer.cpp:243-259 | each chunk is as long as its lead byte announces (1 to 4 bytes), except that the last may be cut short by the end of the text |
| UnigramTraining.TextTokensSpec | Aura-Tokenizer/src/unigram_trainer.cpp:230-262 | with a regex and a non-empty pattern the text is one token; otherwise its chunks spell it, each 1 to 4 bytes |
| UnigramTraining.TallySpec | Aura-Tokenizer/src/unigram_trainer.cpp:219-224 | tallying adds each non-empty string's occurrences to its count and makes it a key exactly when it occurs; the empty string is never counted |
| UnigramTraining.TallyAppend | Aura-Tokenizer/src/unigram_trainer.cpp:57-59 | tallying two runs of tokens one after the other is tallying them together |
| UnigramTraining.FrequenciesSpec | Aura-Tokenizer/src/unigram_trainer.cpp:53-59 | the gathered frequency of each non-empty string is its number of occurrences among the tokens of the non-empty lines, and exactly the occurring strings are keys |
| UnigramTraining.Candidates | Aura-Tokenizer/src/unigram_trainer.cpp:285-292 | a string is a candidate exactly when its frequency reaches the minimum |
| UnigramTraining.TrainedVocabSpec | Aura-Tokenizer/src/unigram_trainer.cpp:267-309 | the rebuilt vocabulary is valid and consistent, holds every kept candidate, nothing but specials and candidates, and at most `max_tokens_` tokens beyond the specials |
| UnigramTraining.KeptAll | Aura-Tokenizer/src/unigram_trainer.cpp:300-308 | with no more candidates than `max_tokens_`, every candidate is added |
| UnigramTraining.KeptAreMostFrequent | Aura-Tokenizer/src/unigram_trainer.cpp:294-308 | no candidate left out is more frequent than a candidate added |
| UnigramTraining.UnigramTrainer.constructor | Aura-Tokenizer/src/unigram_trainer.cpp:14-30 | minimum frequency 2, at most 30000 tokens, no regex, and a configuration with those values and no normalization, stripping or lower-casing |
| UnigramTraining.UnigramTrainer.SetConfig | Aura-Tokenizer/src/unigram_trainer.cpp:157-167 | the configuration and every setting taken from it |
| UnigramTraining.UnigramTrainer.SetMinFrequency | Aura-Tokenizer/src/unigram_trainer.cpp:173-179 | 0 is refused with its message and nothing changes; otherwise the field and the configuration both take the value |
| UnigramTraining.UnigramTrainer.SetMaxTokens | Aura-Tokenizer/src/unigram_trainer.cpp:181-187 | 0 is refused with its message and nothing changes; otherwise the field and the configuration both take the value |
| UnigramTraining.UnigramTrainer.SetUseRegex | Aura-Tokenizer/src/unigram_trainer.cpp:189-192 | the flag and the configuration both take the value |
| UnigramTraining.UnigramTrainer.SetRegexPattern | Aura-Tokenizer/src/unigram_trainer.cpp:194-197 | the pattern and the configuration both take the value |
| UnigramTraining.UnigramTrainer.TokenizeText | Aura-Tokenizer/src/unigram_trainer.cpp:230-262 | the loop yields the tokens `TextTokensSpec` characterizes |
| UnigramTraining.UnigramTrainer.ProcessText | Aura-Tokenizer/src/unigram_trainer.cpp:206-225 | the counts of the line's non-empty tokens are incremented in place; an empty line changes nothing |
| UnigramTraining.UnigramTrainer.BuildVocab | Aura-Tokenizer/src/unigram_trainer.cpp:267-309 | the vocabulary becomes the specials and then the first `max_tokens_` ranked candidates |
| UnigramTraining.UnigramTrainer.AddRanked | Aura-Tokenizer/src/unigram_trainer.cpp:300-308 | the loop adds the ranked candidates until `max_tokens_` have been added |
| UnigramTraining.UnigramTrainer.RegisterConfiguredSpecials | Aura-Tokenizer/src/unigram_trainer.cpp:269-283 | cleared, then UNK, PAD, BOS, EOS and the non-empty MASK, SEP, CLS registered |
| UnigramTraining.UnigramTrainer.Train | Aura-Tokenizer/src/unigram_trainer.cpp:48-63 | an empty list of lines is refused before anything changes; otherwise the vocabulary is rebuilt from the lines' frequencies |
| UnigramTraining.UnigramTrainer.TrainFromFile | Aura-Tokenizer/src/unigram_trainer.cpp:65-79 | a path that cannot be opened is refused with its name; otherwise the vocabulary is rebuilt from the file's lines, even when there are none |
| UnigramTraining.UnigramTrainer.TrainFromFiles | Aura-Tokenizer/src/unigram_trainer.cpp:81-100 | no paths is refused before the vocabulary changes; the first path that cannot be opened is refused with its name before the vocabulary changes; otherwise the vocabulary is rebuilt from all lines of all files |
| UnigramTraining.UnigramTrainer.GatherFrequencies | Aura-Tokenizer/src/unigram_trainer.cpp:57-59 | `process_text` on every line in order gives the frequencies `FrequenciesSpec` characterizes |
| UnigramTraining.ReadAll | Aura-Tokenizer/src/unigram_trainer.cpp:87-97 | the first path that cannot be opened is reported; otherwise the lines of all files in order |
| UnigramTraining.SpecialVocabSteps | Aura-Tokenizer/src/unigram_trainer.cpp:270-283 | the seven registrations give the configured specials' vocabulary: registering an empty text changes nothing |
| CharLevel.NormalizedCorpusSnoc | Aura-Tokenizer/src/char_level_tokenizer.cpp:119-120 | the text `train` walks grows by each normalized text in turn |
| CharLevel.FirstOccurrencesSpec | Aura-Tokenizer/src/char_level_tokenizer.cpp:121-126 | each corpus byte is added exactly once, and nothing else is |
| CharLevel.FirstOccurrencesPrefix | Aura-Tokenizer/src/char_level_tokenizer.cpp:119-127 | bytes met earlier in the corpus are listed, in the same order, before those met later |
| CharLevel.CharVocabShape | Aura-Tokenizer/src/char_level_tokenizer.cpp:117-127 | the trained table is valid and consistent, its counter and size are the number of distinct bytes, and nothing is special |
| CharLevel.CharVocabTokens | Aura-Tokenizer/src/char_level_tokenizer.cpp:121-126 | the trained table holds exactly the one-byte strings of the corpus bytes |
| CharLevel.CharVocabIds | Aura-Tokenizer/src/char_level_tokenizer.cpp:118-126 | the k-th distinct byte of the corpus has id k, both ways |
| CharLevel.CharVocabSnoc | Aura-Tokenizer/src/char_level_tokenizer.cpp:122-125 | one more byte adds it with the next counter value exactly when it is new |
| CharLevel.TrainedVocabIds | Aura-Tokenizer/src/char_level_tokenizer.cpp:114-130 | after training every corpus byte keeps the id of its first occurrence, and every special that is not a corpus byte has an id at or above the number of distinct bytes |
| CharLevel.DecodeEncode | Aura-Tokenizer/src/char_level_tokenizer.cpp:63-86 | with a consistent table that holds every byte of the normalized text, decoding its ids gives the text back |
| CharLevel.DecodeTokensEncode | Aura-Tokenizer/src/char_level_tokenizer.cpp:53-78 | decoding the tokens of the normalized text gives it back, whatever the table holds |
| CharLevel.CharLevelTokenizer.constructor | Aura-Tokenizer/src/char_level_tokenizer.cpp:6-12 | a fresh table holding the configured specials, then the added tokens as CUSTOM specials |
| CharLevel.CharLevelTokenizer.InitializeSpecialTokens | Aura-Tokenizer/src/char_level_tokenizer.cpp:16-51 | the configured specials and the added tokens are registered in the uncleared table; the type map keeps earlier entries and takes the configured ones |
| CharLevel.CharLevelTokenizer.Encode | Aura-Tokenizer/src/char_level_tokenizer.cpp:53-61 | one token per byte of the normalized text, with its id (-1 when unknown) and special flag |
| CharLevel.CharLevelTokenizer.EncodeToIds | Aura-Tokenizer/src/char_level_tokenizer.cpp:63-70 | one id per byte of the normalized text, -1 when unknown |
| CharLevel.CharLevelTokenizer.Decode | Aura-Tokenizer/src/char_level_tokenizer.cpp:72-78 | the tokens' texts concatenated |
| CharLevel.CharLevelTokenizer.DecodeFromIds | Aura-Tokenizer/src/char_level_tokenizer.cpp:80-86 | the ids' texts concatenated, the empty text for unknown ids |
| CharLevel.CharLevelTokenizer.BatchEncode | Aura-Tokenizer/src/char_level_tokenizer.cpp:88-95 | one id list per text, in order |
| CharLevel.CharLevelTokenizer.BatchDecode | Aura-Tokenizer/src/char_level_tokenizer.cpp:97-104 | one decoded text per id list, in order |
| CharLevel.CharLevelTokenizer.Save | Aura-Tokenizer/src/char_level_tokenizer.cpp:106-108 | `save` always throws "CharLevelTokenizer::save not implemented yet." |
| CharLevel.CharLevelTokenizer.Load | Aura-Tokenizer/src/char_level_tokenizer.cpp:110-112 | `load` always throws "CharLevelTokenizer::load not implemented yet." |
| CharLevel.CharLevelTokenizer.Train | Aura-Tokenizer/src/char_level_tokenizer.cpp:114-130 | the table is cleared, each new byte of the normalized corpus added with the next counter value, then the specials registered after them; the size argument is ignored |
| CharLevel.CharLevelTokenizer.AddTextBytes | Aura-Tokenizer/src/char_level_tokenizer.cpp:121-126 | the inner loop extends the table and the counter by the new bytes of one text |
| CharLevel.CharLevelTokenizer.AddSpecialTokens | Aura-Tokenizer/src/char_level_tokenizer.cpp:132-136 | each string is registered as a CUSTOM special, in order |
| CharLevel.CharLevelTokenizer.GetSpecialTokens | Aura-Tokenizer/src/char_level_tokenizer.cpp:138-144 | the recorded texts in the visiting order of the map (a parameter): one text per recorded type, and every recorded text is listed |
| CharLevel.CharLevelTokenizer.GetSpecialTokenId | Aura-Tokenizer/src/char_level_tokenizer.cpp:150-156 | -1 for an unrecorded type, else the table id of its recorded text |
| CharLevel.CharLevelTokenizer.SetConfig | Aura-Tokenizer/src/char_level_tokenizer.cpp:162-166 | the configuration is replaced and its specials registered again |
| CharLevel.CharLevelTokenizer.SetVocab | Aura-Tokenizer/src/char_level_tokenizer.cpp:168-171 | the table is replaced and the specials registered in the new one |
| Encoding.JoinWithSnoc | Aura-Tokenizer/src/tokenizer_encoder.cpp:55-60 | joining one more word adds the separator and the word, or gives the word alone when there was none |
| Encoding.RunLengthWord | Aura-Tokenizer/src/tokenizer_encoder.cpp:47-53 | the run read for a word followed by whitespace or by nothing is the whole word |
| Encoding.WordsOfWord | Aura-Tokenizer/src/tokenizer_encoder.cpp:347-357 | a non-empty string without whitespace is one word |
| Encoding.WordsJoin | Aura-Tokenizer/src/tokenizer_encoder.cpp:45-61 | splitting non-empty, whitespace-free words that were joined with single spaces gives the words back |
| Encoding.PreTokenizeWords | Aura-Tokenizer/src/tokenizer_encoder.cpp:347-357 | splitting the joined text again gives exactly the words of the normalized, lower-cased text |
| Encoding.UnkFallbackHas | Aura-Tokenizer/src/tokenizer_encoder.cpp:104-108 | in a valid table the UNK id is used exactly for the subwords the table lacks |
| Encoding.ByteIds | Aura-Tokenizer/src/tokenizer_encoder.cpp:101-111 | one id per byte of the words, the byte's own or the UNK id |
| Encoding.ByteIdsAppend | Aura-Tokenizer/src/tokenizer_encoder.cpp:101-111 | the byte ids of two strings one after the other are their byte ids one after the other |
| Encoding.ByteIdsStep | Aura-Tokenizer/src/tokenizer_encoder.cpp:101-111 | one more word's byte ids follow those of the words before |
| Encoding.EncodedIdsParts | Aura-Tokenizer/src/tokenizer_encoder.cpp:95-118 | the optional BOS id, the byte ids and the optional EOS id make up the encoding |
| Encoding.EncodedIdsSpec | Aura-Tokenizer/src/tokenizer_encoder.cpp:89-119 | the BOS id comes first exactly when special tokens are added and a BOS text is configured, EOS last likewise, and in between one id per non-whitespace byte, its own or the UNK id |
| Encoding.Pieces | Aura-Tokenizer/src/tokenizer_encoder.cpp:136-160 | one piece per id |
| Encoding.RawDecodedSnoc | Aura-Tokenizer/src/tokenizer_encoder.cpp:136-160 | decoding one more id appends its piece |
| Encoding.RawDecodedAppend | Aura-Tokenizer/src/tokenizer_encoder.cpp:136-160 | decoding two id lists one after the other appends their decodings |
| Encoding.ByteIdsDecode | Aura-Tokenizer/src/tokenizer_encoder.cpp:132-163 | the ids of plain bytes decode to the bytes themselves |
| Encoding.DecodeEncodeRaw | Aura-Tokenizer/src/tokenizer_encoder.cpp:89-163 | before post-processing, decoding the encoded ids gives the prepared text without whitespace, when its bytes are plain and the BOS and EOS texts are dropped |
| Encoding.MarkerDropped | Aura-Tokenizer/src/tokenizer_encoder.cpp:151-156 | the id of a BOS or EOS text the table holds decodes to nothing |
| Encoding.RemoveCntrlBytes | Aura-Tokenizer/src/tokenizer_encoder.cpp:376-378 | removing control bytes leaves none and adds no byte |
| Encoding.WordsKeep | Aura-Tokenizer/src/tokenizer_encoder.cpp:387-395 | the words hold only bytes that were not whitespace |
| Encoding.JoinShapeAt | Aura-Tokenizer/src/tokenizer_encoder.cpp:386-396 | in words joined by single spaces each byte is a word byte or a space between two word bytes |
| Encoding.JoinFirst | Aura-Tokenizer/src/tokenizer_encoder.cpp:386-396 | a join of non-empty words starts with the first word |
| Encoding.PostProcessedShape | Aura-Tokenizer/src/tokenizer_encoder.cpp:368-397 | `post_process` leaves no control byte and only single spaces between word bytes, none at either end, and no upper-case letter when lower-casing |
| Encoding.SqueezeCollapse | Aura-Tokenizer/src/tokenizer_encoder.cpp:372-374 | collapsing whitespace runs keeps every non-whitespace byte |
| Encoding.SqueezeRemoveCntrl | Aura-Tokenizer/src/tokenizer_encoder.cpp:376-378 | removing control bytes commutes with removing whitespace |
| Encoding.SqueezeLower | Aura-Tokenizer/src/tokenizer_encoder.cpp:381-384 | lower-casing commutes with removing whitespace |
| Encoding.SqueezeJoin | Aura-Tokenizer/src/tokenizer_encoder.cpp:386-396 | removing the whitespace from words joined by spaces leaves the words written together |
| Encoding.PostProcessedContent | Aura-Tokenizer/src/tokenizer_encoder.cpp:368-397 | the non-whitespace bytes `post_process` keeps are exactly the input's non-whitespace, non-control bytes, in order, lower-cased when configured |
| Encoding.PostProcessedNoSpace | Aura-Tokenizer/src/tokenizer_encoder.cpp:368-397 | a string without whitespace comes out without its control bytes, lower-cased when configured |
| Encoding.DecodeEncode | Aura-Tokenizer/src/tokenizer_encoder.cpp:89-163 | the encoder's round trip: decoding the encoded ids gives the prepared text's non-whitespace, non-control bytes, cased as configured, when its bytes are plain and BOS and EOS are dropped |
| Encoding.DecodedCons | Aura-Tokenizer/src/tokenizer_encoder.cpp:81-85 | the texts of a prefix of ids are the first id's text and then the rest |
| Encoding.OffsetTokensSpec | Aura-Tokenizer/src/tokenizer_encoder.cpp:76-87 | token k carries id k, its text and special flag, and spans from the total length of the texts before it over its own text |
| Encoding.OffsetTokenAt | Aura-Tokenizer/src/tokenizer_encoder.cpp:81-85 | token k of the encoding, one index at a time |
| Encoding.IdsOf | Aura-Tokenizer/src/tokenizer_encoder.cpp:123-128 | one id per token |
| Encoding.OffsetTokensIds | Aura-Tokenizer/src/tokenizer_encoder.cpp:123-130 | decoding the tokens of `encode` sees exactly the ids of `encode_to_ids` |
| Encoding.ChineseCharWidth | Aura-Tokenizer/src/tokenizer_encoder.cpp:399-408 | every accepted ideograph is a valid code point of three UTF-8 bytes below 0x10000 and four above |
| Encoding.Encoder.constructor | Aura-Tokenizer/src/tokenizer_encoder.cpp:18-24 | a fresh table holding the configured specials |
| Encoding.Encoder.InitializeSpecialTokens | Aura-Tokenizer/src/tokenizer_encoder.cpp:322-345 | the non-empty configured specials are added, in order, to the uncleared table |
| Encoding.Encoder.NormalizeAndPretokenize | Aura-Tokenizer/src/tokenizer_encoder.cpp:30-62 | the normalized, lower-cased text's words joined with single spaces |
| Encoding.Encoder.PreTokenize | Aura-Tokenizer/src/tokenizer_encoder.cpp:347-358 | the words of the normalized, lower-cased text |
| Encoding.Encoder.AppendWordIds | Aura-Tokenizer/src/tokenizer_encoder.cpp:102-110 | the word's byte ids, UNK for unknown bytes, appended |
| Encoding.Encoder.EncodeToIds | Aura-Tokenizer/src/tokenizer_encoder.cpp:89-119 | the ids that `EncodedIdsSpec` characterizes |
| Encoding.Encoder.Encode | Aura-Tokenizer/src/tokenizer_encoder.cpp:76-87 | the encoded ids as tokens with contiguous offsets from 0 |
| Encoding.Encoder.DecodeFromIds | Aura-Tokenizer/src/tokenizer_encoder.cpp:132-163 | the ids' pieces appended, then `post_process` |
| Encoding.Encoder.PostProcess | Aura-Tokenizer/src/tokenizer_encoder.cpp:368-397 | the text `PostProcessedShape` and `PostProcessedContent` characterize |
| Encoding.Encoder.Decode | Aura-Tokenizer/src/tokenizer_encoder.cpp:123-130 | the tokens' ids decoded |
| Encoding.Encoder.BatchEncode | Aura-Tokenizer/src/tokenizer_encoder.cpp:225-234 | one id list per text, in order |
| Encoding.Encoder.BatchDecode | Aura-Tokenizer/src/tokenizer_encoder.cpp:236-245 | one decoded text per id list, in order |
| Encoding.Encoder.OffsetMappingsOf | Aura-Tokenizer/src/tokenizer_encoder.cpp:261-270 | each token's span, in order |
| Encoding.Encoder.GetOffsetMappings | Aura-Tokenizer/src/tokenizer_encoder.cpp:249-259 | one span per encoded id; span k runs from the length of the texts of the ids before it over its own text |
| Encoding.Encoder.Train | Aura-Tokenizer/src/tokenizer_encoder.cpp:278-282 | training always fails with its message |
| Encoding.Encoder.TrainText | Aura-Tokenizer/src/tokenizer_encoder.cpp:284-287 | training always fails with its message |
| Encoding.Encoder.AddSpecialTokens | Aura-Tokenizer/src/tokenizer_encoder.cpp:291-295 | every string is registered as an UNK special, in order |
| Encoding.Encoder.SetConfig | Aura-Tokenizer/src/tokenizer_encoder.cpp:309-311 | the configuration is replaced and the table left alone |
| Encoding.Encoder.SetVocab | Aura-Tokenizer/src/tokenizer_encoder.cpp:313-318 | the encoder keeps a fresh copy of the given table with the configured specials added; the caller's table is unchanged |
| Encoding.SpecialsOfTypeGrow | Aura-Tokenizer/src/tokenizer_encoder.cpp:291-295 | registering specials only grows the table, changes nothing when no string is new, and leaves the other types' ids alone |
| Encoding.AddedUnkIsNewest | Aura-Tokenizer/src/tokenizer_encoder.cpp:291-295 | after `add_special_tokens` with a new string, the UNK type names the last id handed out, whose text is one of the strings |
| Encoding.NewSpecialIsNewest | Aura-Tokenizer/src/tokenizer_encoder.cpp:293 | a new special takes the id `next_id_` had, and that id holds its text |
| SpecialTokens.ConfiguredSpecials | Aura-Tokenizer/src/wordpiece_tokenizer.cpp:18-45 | the seven configured specials in registration order, UNK first and CLS last |
| SpecialTokens.Texts | Aura-Tokenizer/src/wordpiece_tokenizer.cpp:18-45 | the text of each pair, in order |
| SpecialTokens.SpecialMap | Aura-Tokenizer/src/wordpiece_tokenizer.cpp:18-45 | `special_tokens_` records only non-empty texts |
| SpecialTokens.SpecialMapSpec | Aura-Tokenizer/src/wordpiece_tokenizer.cpp:18-45 | a type is recorded exactly when its configured text is non-empty, and with that text |
| SpecialTokens.ListedSpecials | Aura-Tokenizer/src/wordpiece_tokenizer.cpp:147-153 | one text per recorded type; every recorded text is listed and nothing else |
| SpecialTokens.KeyOrderSize | Aura-Tokenizer/src/wordpiece_tokenizer.cpp:149-151 | a duplicate-free listing of a map's keys is as long as the map |
| SpecialTokens.RegisterSpecials | Aura-Tokenizer/src/wordpiece_tokenizer.cpp:18-45 | each non-empty text is registered as a special of its type and recorded in the type map |
| SpecialTokens.RegisterAll | Aura-Tokenizer/src/wordpiece_tokenizer.cpp:48-50 | each string is registered as a special of the one type, in order |
| SpecialTokens.WithSpecialsEffect | Aura-Tokenizer/src/vocab.cpp:63-71 | registering specials keeps the table valid and consistent, adds every non-empty text, adds nothing else, and leaves earlier tokens' ids alone |
| SpecialTokens.WithSpecialsKeepsType | Aura-Tokenizer/src/vocab.cpp:63-71 | registering other types leaves a type's special id alone |
| SpecialTokens.FirstSpecial | Aura-Tokenizer/src/vocab.cpp:63-71 | in an empty table the first non-empty special gets id 0 and its text |
| SpecialTokens.FirstSpecialEmpty | Aura-Tokenizer/src/vocab.cpp:64 | a type whose only text is empty is never registered |
| SpecialTokens.SpecialVocabUnk | Aura-Tokenizer/src/wordpiece_tokenizer.cpp:18-21 | a non-empty UNK text receives id 0 and is the UNK special |
| SpecialTokens.SpecialVocabNoUnk | Aura-Tokenizer/src/wordpiece_tokenizer.cpp:18-21 | with an empty UNK text, the UNK special id is -1 |
| SpecialTokens.WithSpecialsOfTypeEffect | Aura-Tokenizer/src/vocab.cpp:63-71 | registering custom specials keeps the table valid and consistent, adds every non-empty string and leaves earlier tokens' ids alone |
| SpecialTokens.WithSpecialsFresh | Aura-Tokenizer/src/vocab.cpp:66 | added specials get ids at or above `next_id_`, which never decreases |
| SpecialTokens.WithSpecialsOfTypeFresh | Aura-Tokenizer/src/vocab.cpp:66 | the same for specials of one type |
| SpecialTokens.ConfiguredTypesDistinct | Aura-Tokenizer/src/wordpiece_tokenizer.cpp:18-45 | the seven configured specials have seven distinct types |
| Bytes.Code | Aura-Tokenizer/src/tokenizer_encoder.cpp:41-42 | a byte's unsigned value is below 256 |
| Bytes.ToLower | Aura-Tokenizer/src/tokenizer_encoder.cpp:41-42 | `tolower` in the C locale moves exactly 'A'..'Z' up by 32 |
| Bytes.Lower | Aura-Tokenizer/src/tokenizer_encoder.cpp:40-43 | every byte lower-cased, the length kept |
| Bytes.ByteStrings | Aura-Tokenizer/src/char_level_tokenizer.cpp:56-59 | one single-byte string per byte, in order |
| Bytes.ByteStringsConcat | Aura-Tokenizer/src/char_level_tokenizer.cpp:56-59 | the single-byte strings spell the string again |
| Bytes.RunLength | Aura-Tokenizer/src/tokenizer_encoder.cpp:47-53 | the longest whitespace-free prefix, stopped by whitespace or the end |
| Bytes.Words | Aura-Tokenizer/src/tokenizer_encoder.cpp:47-53 | the words `>>` reads are non-empty and whitespace-free, at most one per byte |
| Bytes.WordsConcat | Aura-Tokenizer/src/tokenizer_encoder.cpp:47-53 | the words written together are the string without its whitespace |
| Bytes.WordsMaximal | Aura-Tokenizer/src/tokenizer_encoder.cpp:47-53 | each word `>>` reads stands in the string as a maximal run of non-whitespace bytes: it starts at the beginning or after whitespace and ends at the end or before whitespace |
| Files.FirstMissingAt | Aura-Tokenizer/src/bpe_trainer.cpp:167-169 | the reported path is the first one that cannot be opened |
| Files.NonEmpty | Aura-Tokenizer/src/bpe_trainer.cpp:171-173 | the non-empty lines, and every non-empty line is kept |
| Files.NonEmptyAppend | Aura-Tokenizer/src/bpe_trainer.cpp:167-174 | filtering file by file gives the same lines as filtering them all |
| Config.WithAddedToken | Aura-Tokenizer/src/tokenizer_config.cpp:168-170 | `add_special_token` maps the token to the decimal text of its id, replacing any earlier entry, and changes no other field |
| Config.AddedTokenReadsBack | Aura-Tokenizer/src/tokenizer_config.cpp:168-170 | the text stored for a token by `add_special_token` reads back through `stoi` as the id that was added |
| Config.NatText | Aura-Tokenizer/src/tokenizer_config.cpp:61 | `operator<<` on an unsigned field prints a non-empty run of decimal digits |
| Config.NatTextValue | Aura-Tokenizer/src/tokenizer_config.cpp:61 | the digits printed for an unsigned value denote that value |
| Config.DigitRun | Aura-Tokenizer/src/tokenizer_config.cpp:117 | the run of digits measured by the number reader is maximal: all digits, followed by a non-digit or the end |
| Config.SkipSpace | Aura-Tokenizer/src/tokenizer_config.cpp:117 | the leading-whitespace skip of `stoul`/`stoi` stops at the first non-space byte |
| Config.StoUL | Aura-Tokenizer/src/tokenizer_config.cpp:117 | `std::stoul`: no digits throws; a magnitude past `ULONG_MAX` throws; otherwise the value, negated modulo 2^64 after a '-' |
| Config.StoI | Aura-Tokenizer/src/tokenizer_config.cpp:157 | `std::stoi`: no digits or a value outside `int` throws; otherwise the signed value |
| Config.ReadNatText | Aura-Tokenizer/src/tokenizer_config.cpp:61 | a printed unsigned value followed by a non-digit is read back as itself, unsigned |
| Config.ReadIntText | Aura-Tokenizer/src/tokenizer_config.cpp:80 | a printed `int` is read back with its sign and magnitude |
| Config.StoULRoundTrip | Aura-Tokenizer/src/tokenizer_config.cpp:117 | `stoul` reads back what `operator<<` prints for a `size_t` |
| Config.StoIRoundTrip | Aura-Tokenizer/src/tokenizer_config.cpp:157 | `stoi` reads back what `operator<<` prints for an `int` |
| Config.FindSpec | Aura-Tokenizer/src/tokenizer_config.cpp:94 | `find` returns the first position at or after the cursor holding the byte, or none when no such position exists |
| Config.RFindSpec | Aura-Tokenizer/src/tokenizer_config.cpp:97 | `rfind` returns the last position at or before the bound holding the byte, or none when no such position exists |
| Config.ParseKey | Aura-Tokenizer/src/tokenizer_config.cpp:116-160 | the `if`/`else if` chain recognises a key text only as the name of the field it assigns |
| Config.ParseKeyName | Aura-Tokenizer/src/tokenizer_config.cpp:116-160 | every key name that `to_string` prints is recognised by the chain as its own field |
| Config.ValueEnd | Aura-Tokenizer/src/tokenizer_config.cpp:104-106 | the value ends at the next ',' after the '=', else at the next '}', and lies inside the text |
| Config.Step | Aura-Tokenizer/src/tokenizer_config.cpp:94-113 | one loop turn: no '=' stops, an '=' with no space before it advances one past it, a value with no ',' or '}' stops, otherwise the pair is stored and the cursor moves past the value's end |
| Config.ParseLoop | Aura-Tokenizer/src/tokenizer_config.cpp:93-163 | the cursor loop stores exactly the pairs `ParseFrom` finds, stopping at the first failure |
| Config.TakeTurn | Aura-Tokenizer/src/tokenizer_config.cpp:97-113 | the body of the loop once an '=' is found computes `Step` |
| Config.FromString | Aura-Tokenizer/src/tokenizer_config.cpp:87-166 | `from_string` starts from the defaults and applies every key/value pair the loop finds, an exception from `stoul`/`stoi` ending it as an error |
| Config.AssignValue | Aura-Tokenizer/src/tokenizer_config.cpp:116-160 | reading a printed value back through the chain stores exactly the field it was printed from |
| Config.OnePair | Aura-Tokenizer/src/tokenizer_config.cpp:94-113 | on a printed pair the loop stores that pair (or fails with its conversion error) and resumes after the ',' |
| Config.KeyNamePlain | Aura-Tokenizer/src/tokenizer_config.cpp:59-82 | no printed key contains a space or an '=' |
| Config.ParsePairs | Aura-Tokenizer/src/tokenizer_config.cpp:93-163 | over a run of printed pairs the loop stores exactly those pairs, in order |
| Config.StoreCopies | Aura-Tokenizer/src/tokenizer_config.cpp:116-160 | storing every printed pair copies the printed fields of the configuration |
| Config.CopyOrder | Aura-Tokenizer/src/tokenizer_config.cpp:58-85 | copying the fields in the order `to_string` prints them (after `vocab_size`) gives the read-back configuration |
| Config.SkipBare | Aura-Tokenizer/src/tokenizer_config.cpp:97-101 | an '=' with no space before it is skipped without storing anything |
| Config.HeadSkipped | Aura-Tokenizer/src/tokenizer_config.cpp:60-61 | the printed `vocab_size` pair, whose '=' follows '{' and not a space, is passed over by the loop |
| Config.RoundTrip | Aura-Tokenizer/src/tokenizer_config.cpp:58-166 | when no string field holds a ',', `from_string(to_string(c))` gives `c` except for `vocab_size` and the unprinted fields, which keep their defaults |
| TemplateParsing.FirstFrom | Aura-Tokenizer/src/template_parser.cpp:10 | the scan for a closing bracket stops at the first index holding it, or at the end of the text |
| TemplateParsing.MatchAtShape | Aura-Tokenizer/src/template_parser.cpp:10 | the placeholder scanner matches from `i` to `e` exactly when `s[i..e]` is `{{X}}` or `[X]` with a non-empty X free of the closing bracket, as the regex requires |
| TemplateParsing.MatchHasShape | Aura-Tokenizer/src/template_parser.cpp:10 | every scanner match has one of the two placeholder shapes of the regex |
| TemplateParsing.ShapeIsMatch | Aura-Tokenizer/src/template_parser.cpp:10 | every text with one of the two placeholder shapes is what the scanner matches there |
| TemplateParsing.NextMatch | Aura-Tokenizer/src/template_parser.cpp:14-19 | the regex iterator's next match is the leftmost one at or after the cursor; when there is none, no position matches |
| TemplateParsing.MatchBounds | Aura-Tokenizer/src/template_parser.cpp:10 | a match is at least three bytes long and ends within the text |
| TemplateParsing.ParseTemplate | Aura-Tokenizer/src/template_parser.cpp:12-63 | the `last_pos` loop over the matches computes the parse of the whole template |
| TemplateParsing.PrefixedStep | Aura-Tokenizer/src/template_parser.cpp:19-51 | one turn of the loop moves the gap literal and the classified placeholder of one match into the output and the cursor to the match's end |
| TemplateParsing.RenderAppend | Aura-Tokenizer/src/template_parser.cpp:12-63 | writing segments back distributes over concatenation |
| TemplateParsing.ClassifyRender | Aura-Tokenizer/src/template_parser.cpp:33-45 | a classified placeholder is written back, brackets restored, as the text it was cut from |
| TemplateParsing.RenderGap | Aura-Tokenizer/src/template_parser.cpp:25-29 | a gap literal is written back as the text between the previous match and this one |
| TemplateParsing.ParseFromRender | Aura-Tokenizer/src/template_parser.cpp:19-60 | the segments parsed from the cursor on spell the rest of the template |
| TemplateParsing.ParseRender | Aura-Tokenizer/src/template_parser.cpp:12-63 | round trip: a successful parse, with `{{ }}` and `[ ]` put back, spells the template |
| TemplateParsing.SeparatedCons | Aura-Tokenizer/src/template_parser.cpp:25-45 | a placeholder between two literals keeps them apart |
| TemplateParsing.ClassifyOk | Aura-Tokenizer/src/template_parser.cpp:34-45 | a classified placeholder is a variable whose text starts with a space or a non-empty special-token name |
| TemplateParsing.ParseShape | Aura-Tokenizer/src/template_parser.cpp:12-63 | every segment of a successful parse is well formed and no two literals are adjacent |
| TemplateParsing.ParseFromErr | Aura-Tokenizer/src/template_parser.cpp:46-48 | parsing from the cursor fails only at a `{{X}}` match whose content does not start with a space |
| TemplateParsing.ClassifyErrShape | Aura-Tokenizer/src/template_parser.cpp:34-48 | of the two placeholder shapes, only a variable without the leading space is rejected |
| TemplateParsing.ParseErr | Aura-Tokenizer/src/template_parser.cpp:46-48 | `parse` throws only at a `{{X}}` lacking the leading space, with the message "Malformed template placeholder: " and the placeholder; a template with no '{' always parses |
| TemplateParsing.ParseNoPlaceholder | Aura-Tokenizer/src/template_parser.cpp:54-62 | the empty template parses to nothing; a template with no '[' or '{' is a single literal |
| TemplateParsing.SpecialPlaceholderWider | Aura-Tokenizer/src/template_parser.cpp:65-68 | `is_special_token_placeholder` accepts every special-token match, and also `[]`, which the regex does not match |
| PostProcessing.IdsOf | Aura-Tokenizer/src/post_processor.cpp:26-35 | the ids of a token list, one per token, in order |
| PostProcessing.IdsOfAppend | Aura-Tokenizer/src/post_processor.cpp:56-76 | the ids of a concatenation are the concatenated ids |
| PostProcessing.KnownAgree | Aura-Tokenizer/src/post_processor.cpp:40-53 | the template constructor's prefix/suffix token lists and id lists carry the same ids |
| PostProcessing.KnownSpec | Aura-Tokenizer/src/post_processor.cpp:40-53 | the template constructor keeps only ids the vocabulary has: every string's id when all are known, nothing when none is |
| PostProcessing.CollectKnown | Aura-Tokenizer/src/post_processor.cpp:40-46 | one constructor loop collects the ids and tokens of exactly the known strings, in order |
| PostProcessing.NewTemplated | Aura-Tokenizer/src/post_processor.cpp:37-54 | `TemplatePostProcessor(templ, vocab)` holds the known prefix and suffix tokens and ids |
| PostProcessing.ResolveSpecialSpec | Aura-Tokenizer/src/post_processor.cpp:146-166 | a name resolves to an id exactly when the configured text of a reserved name (CLS, SEP, BOS, EOS, PAD, UNK, MASK), or the name itself when it is an added token, is in the vocabulary, and then to that text's id |
| PostProcessing.LiteralTokens | Aura-Tokenizer/src/post_processor.cpp:96-99 | a literal becomes one non-special token per byte, carrying that byte's id or -1 |
| PostProcessing.ChatIdsOk | Aura-Tokenizer/src/post_processor.cpp:119-144 | the chat template fails exactly when one of its segments does |
| PostProcessing.ChatVariableFails | Aura-Tokenizer/src/post_processor.cpp:100-106 | a parsed variable keeps the space after `{{`, so it is never `message`: a chat template holding any variable throws on every input |
| PostProcessing.SegmentAgrees | Aura-Tokenizer/src/post_processor.cpp:86-144 | for one segment, `process` succeeds exactly when `process_ids` does on the tokens' ids, and then the output tokens' ids are the output ids |
| PostProcessing.ChatAgrees | Aura-Tokenizer/src/post_processor.cpp:86-144 | for the chat template, `process` and `process_ids` agree in success and in ids |
| PostProcessing.LiteralIds | Aura-Tokenizer/src/post_processor.cpp:124-127 | the inner literal loop of `process_ids` gives `get_token_id` of each byte |
| PostProcessing.ChatProcessIds | Aura-Tokenizer/src/post_processor.cpp:119-144 | `ChatTemplatePostProcessor::process_ids`: the segment loop computes the chat template's ids or its first error |
| PostProcessing.ChatIdsStop | Aura-Tokenizer/src/post_processor.cpp:132-139 | a failing segment ends `process_ids` with that segment's error |
| PostProcessing.LiteralTokensOf | Aura-Tokenizer/src/post_processor.cpp:96-99 | the inner literal loop of `process` gives one token per byte |
| PostProcessing.ChatProcess | Aura-Tokenizer/src/post_processor.cpp:86-117 | `ChatTemplatePostProcessor::process`: the segment loop computes the chat template's tokens or its first error |
| PostProcessing.ChatTokensStop | Aura-Tokenizer/src/post_processor.cpp:105-112 | a failing segment ends `process` with that segment's error |
| PostProcessing.NewTemplatedCoherent | Aura-Tokenizer/src/post_processor.cpp:37-54 | the template processor the constructor builds keeps its token and id lists in step |
| PostProcessing.ProcessAgrees | Aura-Tokenizer/src/post_processor.cpp:15-144 | for each processor kind, `process` fails exactly when `process_ids` does on the tokens' ids, and otherwise the ids of its tokens are its ids |
| PostProcessing.BertWraps | Aura-Tokenizer/src/post_processor.cpp:7-35 | BERT: with both configured texts known the ids come out between the CLS id and the SEP id, and the tokens between two special tokens carrying those texts; with neither known they pass through unchanged |
| PostProcessing.RunIds | Aura-Tokenizer/src/post_processor.cpp:182-188 | one processor's `process_ids`, the chat template through its own loop |
| PostProcessing.Run | Aura-Tokenizer/src/post_processor.cpp:174-180 | one processor's `process`, the chat template through its own loop |
| PostProcessing.FoldIdsAppend | Aura-Tokenizer/src/post_processor.cpp:182-188 | running two lists of processors is running the first, then the second on its output |
| PostProcessing.FoldAgrees | Aura-Tokenizer/src/post_processor.cpp:174-188 | the composite keeps `process` and `process_ids` in agreement, as each of its processors does |
| PostProcessing.CompositePostProcessor.constructor | Aura-Tokenizer/src/post_processor.cpp:190-191 | a new composite holds no processor |
| PostProcessing.CompositePostProcessor.AddProcessor | Aura-Tokenizer/src/post_processor.cpp:168-172 | a null processor is ignored; any other goes last, and the composite then runs it after the earlier ones |
| PostProcessing.CompositePostProcessor.ProcessIds | Aura-Tokenizer/src/post_processor.cpp:182-188 | `process_ids` feeds each processor the previous one's output |
| PostProcessing.CompositePostProcessor.Process | Aura-Tokenizer/src/post_processor.cpp:174-180 | `process` feeds each processor the previous one's output |
| PostProcessing.FoldIdsStop | Aura-Tokenizer/src/post_processor.cpp:182-188 | an exception part-way through ends the composite with that exception |
| PostProcessing.FoldStop | Aura-Tokenizer/src/post_processor.cpp:174-180 | an exception part-way through ends the composite with that exception |
| PostProcessing.PipelineShape | Aura-Tokenizer/src/post_processor.cpp:190-205 | BERT first exactly for a BERT base model, a chat template last exactly when one is configured; creation fails only on a template that does not parse; with neither, ids pass through unchanged |
| PostProcessing.CreatePostProcessor | Aura-Tokenizer/src/post_processor.cpp:190-205 | `create_post_processor` returns a fresh composite holding that pipeline, or the template parser's error |
| PreTokenizing.PiecesConcat | Aura-Tokenizer/src/pre_tokenizer.cpp:57-63 | the pieces cut for the first `k` matches spell the text up to the end of match `k` |
| PreTokenizing.SplitConcat | Aura-Tokenizer/src/pre_tokenizer.cpp:53-66 | one pattern pass loses nothing and adds nothing: its pieces spell the text again |
| PreTokenizing.PassesLast | Aura-Tokenizer/src/pre_tokenizer.cpp:52-72 | since each pass spells its text again, every pass starts from the original text and only the last pattern decides the pieces |
| PreTokenizing.PreTokenizedSpec | Aura-Tokenizer/src/pre_tokenizer.cpp:36-83 | without patterns, the non-empty whitespace-free words, which spell the text with its whitespace removed; with patterns, the last pattern's pieces, which spell the text |
| PreTokenizing.FirstFailure | Aura-Tokenizer/src/pre_tokenizer.cpp:29-34 | how far `compile_patterns` gets: every pattern before the index compiles, and the one at it, if any, does not |
| PreTokenizing.FirstFailureUnique | Aura-Tokenizer/src/pre_tokenizer.cpp:29-34 | any index with those two properties is that index |
| PreTokenizing.CompiledSpec | Aura-Tokenizer/src/pre_tokenizer.cpp:29-34 | the patterns compiled when `compile_patterns` stops are a prefix of the configured ones, and all of them exactly when every pattern compiles |
| PreTokenizing.CompiledSnoc | Aura-Tokenizer/src/pre_tokenizer.cpp:19-22 | after patterns that all compile, one more pattern is compiled last when it compiles; otherwise only the earlier ones are |
| PreTokenizing.RegexPreTokenizer.Init | Aura-Tokenizer/src/pre_tokenizer.cpp:5-6 | the member initialiser copies the configuration; nothing is compiled yet |
| PreTokenizing.RegexPreTokenizer.Create | Aura-Tokenizer/src/pre_tokenizer.cpp:5-8 | the constructor throws `regex_error` exactly when some configured pattern does not compile; otherwise the new pre-tokenizer holds the configuration and all its patterns compiled |
| PreTokenizing.RegexPreTokenizer.CompilePatterns | Aura-Tokenizer/src/pre_tokenizer.cpp:29-34 | the patterns are rebuilt in order; it throws `regex_error` exactly when a pattern does not compile, leaving the patterns before the first such one |
| PreTokenizing.RegexPreTokenizer.SetConfig | Aura-Tokenizer/src/pre_tokenizer.cpp:10-13 | `set_config` replaces the configuration, then recompiles; it throws exactly when a new pattern does not compile, with the new configuration already in place |
| PreTokenizing.RegexPreTokenizer.AddPattern | Aura-Tokenizer/src/pre_tokenizer.cpp:19-22 | `add_pattern` appends the pattern to the configuration and recompiles: from a fully compiled state the pattern is compiled last when it compiles; otherwise it throws, the configuration keeps the pattern and only the earlier patterns are compiled |
| PreTokenizing.RegexPreTokenizer.ClearPatterns | Aura-Tokenizer/src/pre_tokenizer.cpp:24-27 | `clear_patterns` empties both lists, so pre-tokenizing splits on whitespace again |
| PreTokenizing.RegexPreTokenizer.PreTokenize | Aura-Tokenizer/src/pre_tokenizer.cpp:36-83 | `pre_tokenize` computes the pre-tokenization of the text under the compiled patterns |
| PreTokenizing.RegexPreTokenizer.RunPasses | Aura-Tokenizer/src/pre_tokenizer.cpp:52-72 | the pattern loop yields the pieces of the passes, each pass over the joined pieces of the one before |
| PreTokenizing.RegexPreTokenizer.BatchPreTokenize | Aura-Tokenizer/src/pre_tokenizer.cpp:85-92 | `batch_pre_tokenize` pre-tokenizes each text on its own, in order |
| PreTokenizing.PreTokenizedStep | Aura-Tokenizer/src/pre_tokenizer.cpp:88-90 | one more text pre-tokenized keeps the batch aligned with its texts |
| PreTokenizing.HandleAll | Aura-Tokenizer/src/pre_tokenizer.cpp:76-80 | `handle_special_cases` returns each token alone, so the final loop leaves the tokens unchanged |
| PreTokenizing.SplitText | Aura-Tokenizer/src/pre_tokenizer.cpp:56-66 | the `last_pos` loop over one pattern's matches cuts the gaps and the matches, in order |
| PreTokenizing.JoinPieces | Aura-Tokenizer/src/pre_tokenizer.cpp:67-70 | the join loop rebuilds the next pass's text as the concatenated pieces |
| PreTokenizing.ByteLevelPreTokenize | Aura-Tokenizer/src/byte_level_pre_tokenizer.cpp:9-16 | one single-byte piece per byte of the text, in order, so the pieces spell the text |
| PreTokenizing.ByteLevelBatch | Aura-Tokenizer/src/byte_level_pre_tokenizer.cpp:18-25 | one result per text, in order, each spelling its text with one piece per byte |
| TokenizerModels.TokenizerModel.constructor | Aura-Tokenizer/src/tokenizer_model.cpp:5-8 | a new model holds no vocabulary, scores or merges and uses BPE |
| TokenizerModels.TokenizerModel.AddTokenToVocab | Aura-Tokenizer/src/tokenizer_model.cpp:10-12 | the token's id is set, replacing any earlier one; nothing else changes |
| TokenizerModels.TokenizerModel.AddTokenWithScore | Aura-Tokenizer/src/tokenizer_model.cpp:14-16 | the token's score is set, replacing any earlier one; nothing else changes |
| TokenizerModels.TokenizerModel.AddMerge | Aura-Tokenizer/src/tokenizer_model.cpp:18-20 | the merge string goes last, duplicates kept; nothing else changes |
| TokenizerModels.TokenizerModel.SetAlgorithm | Aura-Tokenizer/include/tokenizer_model.h:53 | the algorithm is replaced; nothing else changes |
| Advanced.Ones | Aura-Tokenizer/src/tokenizer_advanced.cpp:165-168 | the mask row `encode` adds holds as many ones as there are ids |
| Advanced.MergeStrings | Aura-Tokenizer/src/tokenizer_advanced.cpp:249-251 | `train` hands the model one "first second" string per learnt rule, in order |
| Advanced.RunBpeTrainer | Aura-Tokenizer/src/tokenizer_advanced.cpp:242-244 | the BPE trainer refuses a zero vocabulary size, an empty file list or a missing file, leaving the vocabulary unchanged on error; otherwise it trains into the shared vocabulary and returns its rules |
| Advanced.TrainSized | Aura-Tokenizer/src/tokenizer_advanced.cpp:243-244 | `train_from_files` on a trainer that holds the configuration and no rules: an empty file list is refused, and on error the vocabulary is unchanged |
| Advanced.RunUnigramTrainer | Aura-Tokenizer/src/tokenizer_advanced.cpp:253-256 | the Unigram trainer refuses an empty file list or a missing file; otherwise it trains a fresh vocabulary of its own |
| Advanced.RunAll | Aura-Tokenizer/src/tokenizer_advanced.cpp:187-188 | `encode`'s id pipeline run on each text, in order |
| Advanced.TokenizerAdvanced.constructor | Aura-Tokenizer/src/tokenizer_advanced.cpp:16-124 | the tokenizer holds the configuration, model, normalizer and pre- and post-processors given, and a fresh vocabulary populated and handed to the implementation the model's algorithm selects |
| Advanced.TokenizerAdvanced.Combine | Aura-Tokenizer/src/tokenizer_advanced.cpp:133-156 | one pre-token is encoded as it is; several are joined |
| Advanced.TokenizerAdvanced.ImplEncodeToIds | Aura-Tokenizer/src/tokenizer_advanced.cpp:145-155 | the implementation's `encode_to_ids`, dispatched on its kind, on the normalized text |
| Advanced.TokenizerAdvanced.PostProcessIds | Aura-Tokenizer/src/tokenizer_advanced.cpp:159-161 | the post-processor's `process_ids`, when there is one |
| Advanced.TokenizerAdvanced.Encode | Aura-Tokenizer/src/tokenizer_advanced.cpp:126-170 | `encode` yields one row of ids (normalized, pre-tokenized, joined, encoded, post-processed), and a mask row of as many ones only when the attention mask is asked for; a post-processor error propagates |
| Advanced.TokenizerAdvanced.EncodeBatch | Aura-Tokenizer/src/tokenizer_advanced.cpp:180-201 | `encode_batch` runs `encode` on each text in order and merges each outcome into the batch; the first error propagates |
| Advanced.TokenizerAdvanced.Decode | Aura-Tokenizer/src/tokenizer_advanced.cpp:172-177 | `decode` is the implementation's `decode_from_ids`; `skip_special_tokens` is ignored |
| Advanced.TokenizerAdvanced.DecodeBatch | Aura-Tokenizer/src/tokenizer_advanced.cpp:203-213 | one decoded string per id list, in order |
| Advanced.TokenizerAdvanced.AddSpecialTokens | Aura-Tokenizer/src/tokenizer_advanced.cpp:215-217 | despite its name, plain `add_tokens`: each new token draws a fresh id |
| Advanced.TokenizerAdvanced.Save | Aura-Tokenizer/src/tokenizer_advanced.cpp:219-221 | `save` always throws "TokenizerAdvanced::save not implemented yet." |
| Advanced.TokenizerAdvanced.Load | Aura-Tokenizer/src/tokenizer_advanced.cpp:223-225 | `load` always throws "TokenizerAdvanced::load not implemented yet." |
| Advanced.TokenizerAdvanced.TokenToId | Aura-Tokenizer/src/tokenizer_advanced.cpp:231-233 | -1 exactly for a token the shared vocabulary does not hold |
| Advanced.TokenizerAdvanced.IdToToken | Aura-Tokenizer/src/tokenizer_advanced.cpp:235-237 | the empty text exactly for an id the shared vocabulary does not hold |
| Advanced.TokenizerAdvanced.Train | Aura-Tokenizer/src/tokenizer_advanced.cpp:239-286 | `train` dispatches on the model's current algorithm: BPE trains into the shared vocabulary and appends the rules as strings, Unigram replaces the vocabulary with the trainer's, any other throws "Training is not supported for this algorithm."; on error nothing changes; the implementation then re-adopts the vocabulary |
| Advanced.TokenizerAdvanced.TrainBpe | Aura-Tokenizer/src/tokenizer_advanced.cpp:241-251 | the BPE branch of `train` and the `set_vocab` after it; on error the vocabulary and merges are unchanged |
| Advanced.TokenizerAdvanced.LearnBpeRules | Aura-Tokenizer/src/tokenizer_advanced.cpp:242-244 | the BPE trainer run on this tokenizer's configuration and shared vocabulary, with its error cases |
| Advanced.TokenizerAdvanced.FinishBpe | Aura-Tokenizer/src/tokenizer_advanced.cpp:249-251 | after a BPE run the rules go to the model as strings and the implementation re-adopts the vocabulary |
| Advanced.TokenizerAdvanced.AppendMerges | Aura-Tokenizer/src/tokenizer_advanced.cpp:249-251 | the loop appends one "first second" merge string per rule and changes nothing else in the model |
| Advanced.TokenizerAdvanced.TrainUnigram | Aura-Tokenizer/src/tokenizer_advanced.cpp:252-277 | the Unigram branch of `train` and the `set_vocab` after it; on error the vocabulary is unchanged |
| Advanced.TokenizerAdvanced.FinishUnigram | Aura-Tokenizer/src/tokenizer_advanced.cpp:259-273 | after a Unigram run the old shared vocabulary is cleared and the trainer's becomes the tokenizer's and the implementation's |
| Advanced.TokenizerAdvanced.ClearVocab | Aura-Tokenizer/src/tokenizer_advanced.cpp:268 | `vocab_->clear()` leaves the shared vocabulary empty |
| Advanced.TokenizerAdvanced.AdoptVocab | Aura-Tokenizer/src/tokenizer_advanced.cpp:273-285 | the new vocabulary becomes the tokenizer's and the implementation registers its specials in it |
| Advanced.TokenizerAdvanced.SetImplVocab | Aura-Tokenizer/src/tokenizer_advanced.cpp:282-285 | the implementation adopts the vocabulary and registers its specials in it; its own rules and model are kept |
| Advanced.TokenizerAdvanced.SetNormalizationForm | Aura-Tokenizer/src/tokenizer_advanced.cpp:288-290 | the normalizer's form changes when there is a normalizer; nothing else changes |
| Advanced.TokenizerAdvanced.SetStripAccents | Aura-Tokenizer/src/tokenizer_advanced.cpp:292-294 | the normalizer's accent stripping changes when there is a normalizer |
| Advanced.TokenizerAdvanced.SetLowercase | Aura-Tokenizer/src/tokenizer_advanced.cpp:296-298 | the normalizer's lowercasing changes when there is a normalizer |
| Advanced.TokenizerAdvanced.AddPreTokenizerPattern | Aura-Tokenizer/src/tokenizer_advanced.cpp:300-305 | only a regex pre-tokenizer takes the pattern, appended to its configuration, and passes on its `regex_error` when the pattern does not compile; any other pre-tokenizer ignores it and nothing is thrown |
| Advanced.TokenizerAdvanced.CreateBertPostProcessor | Aura-Tokenizer/src/tokenizer_advanced.cpp:307-313 | the post-processor becomes a BERT processor over the current vocabulary; the flag is ignored |
| Advanced.MaskRows | Aura-Tokenizer/src/tokenizer_advanced.cpp:191-192 | one row of ones per id row, of the same length |
| Advanced.EncodedAll | Aura-Tokenizer/src/tokenizer_advanced.cpp:187-188 | `encode`'s result for each text's id outcome, in order |
| Advanced.BatchedStop | Aura-Tokenizer/src/tokenizer_advanced.cpp:187-198 | once an `encode` call has failed, the batch fails with that error |
| Advanced.BatchedOutcome | Aura-Tokenizer/src/tokenizer_advanced.cpp:180-201 | `encode_batch` fails exactly when some text's `encode` fails, and then with the first failure's message |
| Advanced.MergedRow | Aura-Tokenizer/src/tokenizer_advanced.cpp:189-198 | merging one more encoding appends its ids, its mask row when asked for, and its length |
| Advanced.BatchedRows | Aura-Tokenizer/src/tokenizer_advanced.cpp:180-201 | a successful `encode_batch` holds one id row per text, in order, in a well-formed batch |
| Advanced.Assemble | Aura-Tokenizer/src/tokenizer_advanced.cpp:28-123 | the constructor builds the shared vocabulary, then the implementation for the model's algorithm, which adopts it |
| Advanced.PopulateVocab | Aura-Tokenizer/src/tokenizer_advanced.cpp:32-84 | the vocabulary gets the configured specials, the model's tokens with their ids, the scored tokens with fresh ids, then the added tokens |
| Advanced.BuildImpl | Aura-Tokenizer/src/tokenizer_advanced.cpp:86-123 | the algorithm switch builds the concrete tokenizer from the model's data and gives it the shared vocabulary |
| Advanced.BuildBpe | Aura-Tokenizer/src/tokenizer_advanced.cpp:93-97 | the BPE case: the rules parsed from the model's merge strings, then `set_vocab`, which wipes the vocabulary back to the specials |
| Advanced.BuildUnigram | Aura-Tokenizer/src/tokenizer_advanced.cpp:98-102 | the Unigram case: the shared vocabulary and the model's scores, then `set_vocab` |
| Advanced.BuildWordPiece | Aura-Tokenizer/src/tokenizer_advanced.cpp:103-111 | the WordPiece case: a model over the model's vocabulary with the configured unknown token and a 100-character word limit, then `set_vocab` |
| Advanced.BuildCharLevel | Aura-Tokenizer/src/tokenizer_advanced.cpp:112-115 | the character-level case: `set_vocab` on a fresh tokenizer |
| Advanced.AddModelVocab | Aura-Tokenizer/src/tokenizer_advanced.cpp:71-73 | the loop over the model's (token, id) pairs adds each with its id |
| Advanced.AddScored | Aura-Tokenizer/src/tokenizer_advanced.cpp:74-76 | the loop over the model's scored tokens adds each with a fresh id |
| VectorConversions.Copied | Aura-Tokenizer/src/vector_conversions.cpp:8-10 | the `push_back` loops copy the list unchanged |
| VectorConversions.ToTokenVec | Aura-Tokenizer/src/vector_conversions.cpp:5-12 | `to_token_vec` holds the tokens, element for element |
| VectorConversions.ToIdVec | Aura-Tokenizer/src/vector_conversions.cpp:14-19 | `to_id_vec` holds the ids, element for element |
| VectorConversions.ToStringVec | Aura-Tokenizer/src/vector_conversions.cpp:21-28 | `to_string_vec` holds the strings, element for element |
| VectorConversions.ToMergeRuleVec | Aura-Tokenizer/src/vector_conversions.cpp:70-77 | `to_merge_rule_vec` holds the rules, element for element |
| VectorConversions.FromTokenVec | Aura-Tokenizer/src/vector_conversions.cpp:79-81 | `from_token_vec` gives back the held tokens |
| VectorConversions.FromIdVec | Aura-Tokenizer/src/vector_conversions.cpp:83-85 | `from_id_vec` gives back the held ids |
| VectorConversions.FromStringVec | Aura-Tokenizer/src/vector_conversions.cpp:87-89 | `from_string_vec` gives back the held strings |
| VectorConversions.FromMergeRuleVec | Aura-Tokenizer/src/vector_conversions.cpp:117-119 | `from_merge_rule_vec` gives back the held rules |
| VectorConversions.FlatRoundTrips | Aura-Tokenizer/src/vector_conversions.cpp:5-119 | each flat list comes back unchanged from a conversion there and back |
| VectorConversions.Lengths | Aura-Tokenizer/src/vector_conversions.cpp:36-39 | the first loop of `to_*_vec_vec` records each row's length, in order |
| VectorConversions.FlatLength | Aura-Tokenizer/src/vector_conversions.cpp:32-45 | the flattened data is as long as the recorded lengths add up to |
| VectorConversions.Flatten | Aura-Tokenizer/src/vector_conversions.cpp:30-68 | `to_id_vec_vec` and `to_string_vec_vec` record the row lengths in order, and data as long as their sum |
| VectorConversions.Cut | Aura-Tokenizer/src/vector_conversions.cpp:95-99 | from an offset, the loop cuts one slice per length, each of that length, which together spell the data they cover |
| VectorConversions.Unflatten | Aura-Tokenizer/src/vector_conversions.cpp:91-115 | `from_id_vec_vec` and `from_string_vec_vec` cut the data into consecutive rows of the recorded lengths |
| VectorConversions.CutFlat | Aura-Tokenizer/src/vector_conversions.cpp:91-102 | cutting data that starts with rows written one after the other gives those rows back |
| VectorConversions.NestedRoundTrip | Aura-Tokenizer/src/vector_conversions.cpp:30-115 | flattening rows and cutting them again gives the rows back |
| VectorConversions.NestedRoundTripBack | Aura-Tokenizer/src/vector_conversions.cpp:30-115 | cutting a record whose lengths add up to its data and flattening again gives the record back |
| PythonBinding.KnownIds | Aura-Tokenizer/src/tokenizer_python.cpp:21-26 | `encode` keeps at most one id per word, each a known word's id and never -1 |
| PythonBinding.KnownTexts | Aura-Tokenizer/src/tokenizer_python.cpp:37-42 | `decode` keeps at most one text per id, each the non-empty text of one of the ids |
| PythonBinding.SpacedJoin | Aura-Tokenizer/src/tokenizer_python.cpp:37-46 | texts each followed by a space, with the last space popped, are the texts joined by single spaces |
| PythonBinding.KnownIdsAllKnown | Aura-Tokenizer/src/tokenizer_python.cpp:21-26 | when every word is known, `encode` keeps one id per word, in order |
| PythonBinding.KnownTextsAllKnown | Aura-Tokenizer/src/tokenizer_python.cpp:37-42 | when every id is known, `decode` keeps one text per id, in order |
| PythonBinding.EncodeDecode | Aura-Tokenizer/src/tokenizer_python.cpp:12-49 | round trip: with a consistent vocabulary that knows every word, decoding the encoded ids gives the words joined by single spaces |
| PythonBinding.EncodeDecodeEncode | Aura-Tokenizer/src/tokenizer_python.cpp:12-49 | under the same conditions, encoding the decoded text gives the same ids again |
| PythonBinding.PythonTokenizer.constructor | Aura-Tokenizer/src/tokenizer_python.cpp:8-10 | a new tokenizer shares a fresh, empty vocabulary |
| PythonBinding.PythonTokenizer.Encode | Aura-Tokenizer/src/tokenizer_python.cpp:12-29 | `encode` yields the ids of the known whitespace-separated words, in order; without a vocabulary it throws "Vocabulary not set" |
| PythonBinding.PythonTokenizer.Decode | Aura-Tokenizer/src/tokenizer_python.cpp:31-49 | `decode` yields the texts of the known ids joined by single spaces; without a vocabulary it throws |
| PythonBinding.PythonTokenizer.EncodeBatch | Aura-Tokenizer/src/tokenizer_python.cpp:51-64 | `encode` of each text, in order; without a vocabulary it throws |
| PythonBinding.PythonTokenizer.DecodeBatch | Aura-Tokenizer/src/tokenizer_python.cpp:66-79 | `decode` of each id list, in order; without a vocabulary it throws |
| PythonBinding.PythonTokenizer.SetVocab | Aura-Tokenizer/include/tokenizer_python.h:16 | `set_vocab` shares the given vocabulary, possibly null, and keeps the configuration |
| PythonBinding.PythonTokenizer.SetConfig | Aura-Tokenizer/include/tokenizer_python.h:19 | `set_config` replaces the configuration and keeps the vocabulary |
| IcuIntegration.HandleSpecialCases | Aura-Tokenizer/src/icu_integration.cpp:37-42 | a text that is a URL or an e-mail address as a whole is its one pre-token; otherwise there is none |
| IcuIntegration.PreTokenize | Aura-Tokenizer/src/icu_integration.cpp:11-16 | a URL or e-mail text is one pre-token; any other text is ICU's word segmentation |
| IcuIntegration.FindFrom | Aura-Tokenizer/src/icu_integration.cpp:25 | `find(tok, cursor)` returns the first occurrence at or after the cursor, or none when there is no occurrence there |
| IcuIntegration.Cursor | Aura-Tokenizer/src/icu_integration.cpp:23-33 | the cursor never passes the end of the text |
| IcuIntegration.Mappings | Aura-Tokenizer/src/icu_integration.cpp:19-34 | one mapping is pushed per pre-token |
| IcuIntegration.MappingsAt | Aura-Tokenizer/src/icu_integration.cpp:24-33 | the k-th mapping is the turn for the k-th token from the cursor the earlier tokens left |
| IcuIntegration.CursorStep | Aura-Tokenizer/src/icu_integration.cpp:24-33 | the cursor after k+1 tokens is the one the k-th turn leaves |
| IcuIntegration.MappingShape | Aura-Tokenizer/src/icu_integration.cpp:25-32 | a token found at or after the cursor maps to its span, which holds exactly the token, and the cursor moves to its end; a token not found maps to the empty span at the cursor, which stays |
| IcuIntegration.CursorGrows | Aura-Tokenizer/src/icu_integration.cpp:23-33 | the cursor never moves back |
| IcuIntegration.MappingsOrdered | Aura-Tokenizer/src/icu_integration.cpp:18-35 | the spans lie inside the text, in order and without overlap |
| IcuIntegration.GetOffsetMappings | Aura-Tokenizer/src/icu_integration.cpp:18-35 | `getOffsetMappings` computes one mapping per pre-token, in order, by the cursor search |
| IcuIntegration.Normalize | Aura-Tokenizer/src/icu_integration.cpp:48-58 | `normalize` applies the configured normalization form, then accent stripping and lower-casing when configured |
| IcuIntegration.NormalizedSteps | Aura-Tokenizer/src/icu_integration.cpp:48-58 | the form always comes first, stripping acts on the normalized text, lower-casing comes last, and unconfigured steps are skipped |
| IcuIntegration.BatchNormalize | Aura-Tokenizer/src/icu_integration.cpp:60-67 | `batchNormalize` normalizes each text, in order |
| Plugins.Created | Aura-Tokenizer/src/plugin_registry.cpp:9-15 | an unregistered name creates nothing (`nullptr`); a registered one creates what its factory returns |
| Plugins.CreatedAfterRegister | Aura-Tokenizer/src/plugin_registry.cpp:5-15 | after a name is bound to a factory, creating it invokes that factory, and every other name creates what it did before |
| Plugins.PluginRegistry.RegisterPlugin | Aura-Tokenizer/src/plugin_registry.cpp:5-7 | `register_plugin` binds the name to the factory, replacing an earlier binding of it, and leaves every other binding as it was |
| Plugins.PluginRegistry.Create | Aura-Tokenizer/src/plugin_registry.cpp:9-15 | `create` invokes the factory registered for the name, or returns `nullptr` when there is none |
| Plugins.Process.Instance | Aura-Tokenizer/src/plugin_registry.cpp:17-20 | `instance` builds the empty registry on the first call and returns that same registry on every later call |
| Plugins.Process.InstanceTwice | Aura-Tokenizer/src/plugin_registry.cpp:17-20 | two calls of `instance` return the same registry, and the second changes nothing |
| Plugins.PluginRegistry.constructor | Aura-Tokenizer/include/plugin_registry.h:40 | a new registry holds no factory |

## Left out

- ICU: the normalizer, accent stripping, case mapping, word segmentation and the URL/e-mail tests are library calls whose code is not part of this model. They appear as function-valued parameters (`normalize: Str -> Str`, the `Icu` record of `IcuIntegration`). The concurrency of `batchNormalize` is not modelled, and `ICUNormalizer`'s other members and the `unicode_normalizer.cpp` wrapper are not part of this model.
- `std::regex`: a compiled pattern is an oracle that returns ordered, non-overlapping match spans (`PreTokenizing.FinderOrdered`). Whether a pattern compiles is an oracle too (`PreTokenizing.Compiles`). The `what()` text of a `std::regex_error` is implementation-defined, so the model gives it one fixed text (`PreTokenizing.RegexError`). The whitespace regex of `pre_tokenize` is written out as whitespace splitting. The placeholder regex of `TemplateParser` is written out as a direct scanner, proved equal to the two placeholder shapes. The URL/e-mail regexes are ICU oracles.
- The iteration order of `unordered_map` is unspecified, so it is a parameter wherever it decides something: the BPE trainer's words and pairs per round (`wordOrders`, `pairOrders`), the unigram trainer's ranking of equal frequencies, and the order in which the `TokenizerAdvanced` constructor walks the model's vocabulary, scores and added tokens. Properties hold for every such order.
- PrefixTrie.Trie.Serialize: writes the children of a node in increasing byte order. The source iterates an `unordered_map` of children, whose order is unspecified. `PrefixTrie.SerializeRoundTrip` therefore states the round trip for this one order, not for every order the source might produce.
- Vocabulary.Vocab.AddToken: `nextId` is an unbounded integer. The source's `int next_id_` overflows past `INT_MAX` (vocab.cpp:21-25), which the model does not capture. Ids elsewhere are unbounded `int`s too, except where a width is written out (`u64`, `i32` in `Config`).
- File and stream I/O: every `train_from_file(s)` reads lines from a map from path to lines (`Files`). A missing path is the source's "cannot open" error. `save`/`load` of `BPETokenizer`, `Encoder`, `UnigramTrainer`, `TokenizerConfig` (with `write_string`/`read_string`), `Vocab` (empty stubs) and `serialization_utils.cpp` are not modelled, because they are binary stream formats. The members that only throw are modelled with their messages: `save` and `load` of `WordPieceTokenizer`, `UnigramTokenizer`, `CharLevelTokenizer` and `TokenizerAdvanced`, and `train` of `WordPieceTokenizer`, `UnigramTokenizer` and `Encoder`.
- `TokenizerConfig::load_from_json_string` is commented out in the source, and the JSON parser is not part of this model.
- Floating-point scores: `TokenizerModel::scores_` and `UnigramTokenizer::scores_` hold opaque values, never used arithmetically. Their float type is kept abstract.
- `BPETokenizer::decode(tokens)`, `batch_encode`, `batch_decode` and `train` are not modelled. They are loops over `decode_from_ids`/`encode_to_ids` and a call into the trainer, both of which are modelled. The trainer's private `merge_pair_counts` is never called and is not modelled.
- The getters that only return a field or delegate to `Vocab` are functions on the state, without rows of their own: `get_special_tokens`, `is_special_token`, `get_special_token_id`/`_text`, `get_config`, `get_merge_rules`, `get_vocab`, `get_vocab_size`, `get_algorithm`, `Encoder::get_token_offset`. `Encoder::maybe_push` is never called and is not modelled.
- `BPETrainer::set_normalizer` is not modelled: the normalizer is the `normalize` parameter.
- DoubleArray: `find`, `common_prefix_search`, `predictive_search`, `optimize`, `rebuild_fail_links`, `compact`, `shrink_to_fit`, `serialize`, `deserialize`, `validate` and `print_stats` are stubs that return constants or do nothing, and are not modelled. `fail_links_` is not modelled beyond its length.
- VectorConversions.Unflatten: requires the recorded lengths to fit the data. The source does not check this, and cutting past the end of the data is undefined behaviour there.
- IcuIntegration.GetOffsetMappings: the positions are unbounded integers. The source casts them to `int`, which wraps for texts longer than `INT_MAX` bytes.
- Encoding.Encoder.Encode: the offsets are unbounded integers. The source narrows them with `static_cast<int>` (tokenizer_encoder.cpp:83), which wraps once the decoded texts pass `INT_MAX` bytes. `Encoding.Encoder.GetOffsetMappings` inherits the same gap.
- BpeTraining: `word_counts_` and `pair_counts_` hold `int` counts (bpe_trainer.h:40, 52), which overflow on a corpus with more than `INT_MAX` occurrences of one word or pair. The model's counts are unbounded.
- PostProcessing: `ChatTemplatePostProcessor` keeps `const Vocab&` and `const TokenizerConfig&` references (post_processor.h:59-60). The model's chat-template processor holds the values they had at construction. If the referenced vocabulary or configuration changes later, the source's processor sees the change and the model's does not; a reference that dangles is not modelled either. `create_post_processor` has no caller in the library; a caller that builds the pipeline over the vocabulary `TokenizerAdvanced::train` later extends would see this difference.
- Advanced.TokenizerAdvanced.constructor: does not model the members `special_tokens_map_` and `id_to_special_token_`. The constructor fills them for each configured special token and each added token of the configuration (tokenizer_advanced.cpp:29-84), but no member of the class reads them; the special tokens are modelled through the vocabulary, which is where the source looks them up.
- Plugins.PluginRegistry.Create: a factory is always a function, so the model has no empty `std::function`. In the source, registering an empty `std::function` under a name makes `create` of that name throw `std::bad_function_call` (plugin_registry.cpp:12); the model returns the factory's value instead.
- Plugins: a factory is a pure function value. The `shared_ptr<void>` it returns is an opaque value, and factories with side effects are not modelled. The static local of `instance()` is explicit process state (`Plugins.Process`), and its thread-safe initialisation is not modelled.
- PythonBinding: the getters and the pyo3/Rust/WASM bindings and FFI glue are not modelled; they are thin forwarding layers.
- Offsets, streaming, `tokenizer_base.cpp`, `tokenizer_core.cpp` and the stream printers of `tokenizer_types.cpp` are stubs or formatting, and are not part of this model.
