# Image-captioning data pipeline — the vocabulary, caption tokenising, batching and factories

This project is a Dafny model of the deterministic core of an image-captioning system (a CNN
encoder followed by an LSTM decoder). It covers five things:

- **Vocabulary** (`dict.dfy` and `vocabulary.dfy`, modules `Dict` and `Vocab`). The vocabulary is
  a Python dict from words to ids. It is modelled as its key list in insertion order plus the
  mapping (`Dict.Table`). A store (`Put`) appends a new key and keeps an existing key in place;
  `Fill` is the loop that stores each word with a running counter.
  - The four control tokens `<PAD>`, `<START>`, `<END>` and `<UNK>` get ids 0 to 3. The corpus
    words follow with a counter starting at 4.
  - The class `Vocabulary` keeps the dict in fields. Its constructor fills them with the same
    loop the source uses.
  - `Translate` writes into a zeroed buffer, as the source does. An unknown mode leaves the
    buffer unbound, and the call fails with `UnboundLocalError`.
  - `RevTranslate` indexes the key list. It follows Python's negative indexing and raises
    `IndexError` outside `[-len, len)`.
- **Caption tokenising** (`text.dfy` and `tokenizer.dfy`). A caption is lower-cased and split
  with the pattern `[\w]+|\.|\,`. Each match is a maximal run of word characters, a `.` or a
  `,`. Everything else is skipped.
- **Dataset** (`dataset.dfy`). A dataset is a directory and rows of (image name, comment).
  - The list of distinct words keeps each word's first occurrence.
  - `__getitem__` returns the path the image is opened from (image loading is left out), and
    the caption tokens of one row.
  - The fraction subset is a prefix of the rows with `int(n * p / 100)` rows, as
    `DataFrame.head` gives it.
- **Batching** (`batching.dfy`). `pack_minibatch_training` works in three steps:
  - It sorts the (image, caption) pairs in place by caption length, longest first. Python's sort
    is stable.
  - It translates every caption in "complete" mode.
  - It returns the captions zero-padded to the widest row, plus the same rows without `<START>`
    and the raw caption lengths.
- **Factories** (`factory.dfy`). Three enumerations, and one dispatch function each from a
  member to the class it names.

Each operation has a partner, with lemmas that tie the two together:

- the table `Build` makes from a corpus, and its key invariant;
- `translate` and `rev_translate`, with the round trip between them;
- the tokeniser and its reference definitions (`Kept`, and `Unwords` for the round trip);
- the in-place `list.sort` and the functional stable sort (`SortByLength`) that specifies it;
- the distinct-word scan and `Dedup`.

Every padded caption row is `translate`'s output in "complete" mode, so the padded width is the
longest caption plus two (`<START>` and `<END>`), as `Batching.BatchCaptionRow` states.

`FactoryDecoder` behaves differently from the other two factories. It compares its argument
with `decoder.RNetvI`, which looks the member up on the argument itself. So an argument without
attributes of those names fails with `AttributeError`. An argument that has them but is none
of the members, such as the `Decoder` enumeration itself, reaches `NotImplementedError`.

## Model

| member | source | states |
|---|---|---|
| Text.IsWordChar | v2/Dataset.py:72 | definition of the class `\w` on ASCII; properties in Text.Lower and Tokenizer.FindAll |
| Text.Lower | v2/Dataset.py:72 | lower-casing keeps the length, sends each upper-case letter A-Z to the same letter in lower case, leaves every other character alone, keeps word characters word characters, and yields a lower-case string |
| Text.LowerFixedPoints | NeuralModels/Vocabulary.py:102-103 | lower-casing is idempotent, and a string is lower-case exactly when lower-casing leaves it unchanged |
| Tokenizer.FindAll | v2/Dataset.py:72 | every token found is a non-empty run of word characters, a "." or a "," |
| Tokenizer.CaptionTokens | v2/Dataset.py:72 | every caption token is a token of the pattern, and is lower-case |
| Tokenizer.FindAllChars | v2/Dataset.py:72 | every character of every token occurs in the input |
| Tokenizer.FindAllKeepsMatchable | v2/Dataset.py:72 | the tokens, joined, are exactly the characters of the input the pattern can match, in order: nothing matchable is dropped |
| Tokenizer.FindAllSplit | v2/Dataset.py:72 | cutting the input next to a character that is not a word character tokenises the halves independently: the tokens of the whole are the tokens of the halves, concatenated |
| Tokenizer.AdjacentRunsMerge | v2/Dataset.py:72 | runs are maximal: "ab" is one token, while "a" and "b" apart are two |
| Tokenizer.FindAllOneToken | v2/Dataset.py:72 | a string that is itself one token tokenises to just that token |
| Tokenizer.FindAllUnwords | v2/Dataset.py:72 | tokenising a list of tokens joined by spaces gives the list back |
| Dict.Put | NeuralModels/Vocabulary.py:44-51 | definition of one dict store; properties in Dict.PutShape |
| Dict.PutShape | NeuralModels/Vocabulary.py:44-51 | one store keeps the dict well formed, adds exactly its key, appends a new key and keeps the existing key order as a prefix |
| Dict.Fill | NeuralModels/Vocabulary.py:49-52 | definition of the counter loop; properties in Dict.FillShape, Dict.FillId, Dict.FillKeys and Dict.FillLength |
| Dict.FillShape | NeuralModels/Vocabulary.py:49-52 | the loop keeps the dict well formed, adds exactly the words as keys, keeps the existing keys as a prefix and adds at most one key per word |
| Dict.FillId | NeuralModels/Vocabulary.py:49-52 | the word at position i, at its last occurrence, ends with the counter value first + i |
| Dict.FillKeepsId | NeuralModels/Vocabulary.py:44-52 | a key that is none of the words keeps the id it had before the loop |
| Dict.FillIdRange | NeuralModels/Vocabulary.py:49-52 | every id after the loop is a kept earlier id or a counter value in [first, first + len(words)) |
| Dict.FillKeys | NeuralModels/Vocabulary.py:49-52 | duplicate-free new words are appended to the key order exactly in their order |
| Dict.FillLength | NeuralModels/Vocabulary.py:37-52 | the loop adds one key per word if and only if the words are duplicate-free and all new |
| Vocab.PredefinedTokenIdx | NeuralModels/Vocabulary.py:57-68 | definition; properties in Vocab.ReservedTable and Vocab.PredefinedAgreesWithTable |
| Vocab.Build | NeuralModels/Vocabulary.py:44-52 | definition; properties in Vocab.BuildShape, Vocab.BuildKeys, Vocab.BuildLength and Vocab.KeyInvariant |
| Vocab.Reserved | NeuralModels/Vocabulary.py:44-47 | definition of the four control-token stores; properties in Vocab.ReservedTable and Vocab.ReservedShape |
| Vocab.ReservedTable | NeuralModels/Vocabulary.py:44-47 | after the four control-token stores the dict has keys PAD, START, END, UNK in that order with ids 0 to 3, the same mapping predefined_token_idx returns |
| Vocab.ReservedShape | NeuralModels/Vocabulary.py:39-47 | the four stores give a well-formed dict with exactly the four control tokens as keys, in order, with ids 0 to 3 |
| Vocab.ReservedNotLowerCase | NeuralModels/Vocabulary.py:102-103 | no lower-case word is a control token, so a lower-cased lookup never hits one |
| Vocab.BuildShape | NeuralModels/Vocabulary.py:39-52 | for any corpus the dict lists each key once, its keys are the control tokens and the corpus words, it starts with the four control tokens, and it has at most len(words) + 4 entries |
| Vocab.BuildWordId | NeuralModels/Vocabulary.py:49-52 | the word at position i (its last occurrence) gets id i + 4 |
| Vocab.BuildReservedId | NeuralModels/Vocabulary.py:44-52 | a control token absent from the corpus keeps its reserved id 0 to 3 |
| Vocab.BuildIdRange | NeuralModels/Vocabulary.py:44-52 | every id is in [0, len(words) + 4), and an id below 4 belongs to the control token with that id |
| Vocab.BuildKeys | NeuralModels/Vocabulary.py:44-52 | for a corpus with neither duplicates nor control tokens, the keys are the control tokens followed by the corpus words in order |
| Vocab.BuildLength | NeuralModels/Vocabulary.py:37-52 | the dict has dictionary_length = len(words) + 4 entries if and only if the corpus has neither duplicates nor control tokens |
| Vocab.KeyInvariant | NeuralModels/Vocabulary.py:44-52 | for such a corpus the ids are dense and unique over [0, len): each key's id is its own position in the key order, in both directions |
| Vocab.DuplicateWordBreaksKeyInvariant | NeuralModels/Vocabulary.py:49-52 | a repeated word keeps its first position but takes the later id: ["a", "a"] gives 5 keys with "a" at id 5, so len differs from dictionary_length |
| Vocab.PredefinedAgreesWithTable | NeuralModels/Vocabulary.py:57-68 | when no corpus word is a control token, every entry of predefined_token_idx is in the built dict with the same id |
| Vocab.LookupId | NeuralModels/Vocabulary.py:101-105 | definition; properties in Vocab.LookupIdInBuild and Vocab.LookupIdRange |
| Vocab.LookupIdIgnoresCase | NeuralModels/Vocabulary.py:102-105 | two words that differ only in letter case get the same id |
| Vocab.Translation | NeuralModels/Vocabulary.py:89-108 | result only for "complete" or "uncomplete", otherwise UnboundLocalError; length len(ws) + 2 or + 1; START's id first, END's id last in "complete" mode, and each word's lower-cased id or UNK's id in between |
| Vocab.LookupIdInBuild | NeuralModels/Vocabulary.py:101-105 | in a built vocabulary a word's id is 4 plus the last position of its lower-cased form in the corpus, or 3 (UNK) when the corpus lacks it |
| Vocab.TranslateInBuild | NeuralModels/Vocabulary.py:89-106 | for a built vocabulary, translate gives 1 at position 0, 2 at the end in "complete" mode, and the corpus-determined id of each word in between |
| Vocab.LookupIdRange | NeuralModels/Vocabulary.py:101-105 | a looked-up word id is never PAD, START or END, and is below dictionary_length |
| Vocab.TranslateInteriorIds | NeuralModels/Vocabulary.py:101-106 | every id translate writes between START and END is in [3, dictionary_length) |
| Vocab.RevTranslate | NeuralModels/Vocabulary.py:110-121 | result exactly when every id is in [-len, len), otherwise IndexError; same length as the ids; each word is the key at that id's position, negative ids counting from the end |
| Vocab.RevTranslateOutOfRange | NeuralModels/Vocabulary.py:121 | an id at or above dictionary_length always makes rev_translate raise IndexError |
| Vocab.BuildHasReserved | NeuralModels/Vocabulary.py:44-52 | whatever the corpus, the built dict holds START, END and UNK, so translate can always run |
| Vocab.ReservedKeysHeld | NeuralModels/Vocabulary.py:44-52 | a corpus without control tokens leaves START, END and UNK at ids 1, 2 and 3 |
| Vocab.RevTranslateInRange | NeuralModels/Vocabulary.py:110-121 | ids that all index keys naming the expected words make rev_translate return exactly those words |
| Vocab.RoundTripWord | NeuralModels/Vocabulary.py:101-121 | the key at the id translate writes for a word is that word lower-cased if the corpus has it, else `<UNK>` |
| Vocab.RoundTripAt | NeuralModels/Vocabulary.py:70-121 | at each position, the id translate writes names the word the round trip gives back there |
| Vocab.RoundTrip | NeuralModels/Vocabulary.py:70-121 | rev_translate(translate(ws)) is `<START>`, each word lower-cased or `<UNK>`, and `<END>` in "complete" mode |
| Vocab.RoundTripKnownWords | NeuralModels/Vocabulary.py:70-121 | lower-case corpus words come back exactly: rev_translate(translate(ws)) == [`<START>`] + ws + [`<END>`] |
| Vocab.Vocabulary.SetItem | NeuralModels/Vocabulary.py:44-51 | a store keeps an existing key's position and appends a new key, and changes nothing else |
| Vocab.Vocabulary.constructor | NeuralModels/Vocabulary.py:26-55 | the fields hold exactly the table built from the corpus, and dictionary_length is len(words) + 4 |
| Vocab.Vocabulary.Len | NeuralModels/Vocabulary.py:124-127 | len never exceeds dictionary_length, and equals it exactly when the corpus has neither duplicates nor control tokens |
| Vocab.Vocabulary.Translate | NeuralModels/Vocabulary.py:70-108 | the buffer filled in place equals the translation of the current dict, including the UnboundLocalError for an unknown mode |
| Dataset.GetAllDistinctWordsInDataset | v2/Dataset.py:58-64 | the nested scan returns exactly the de-duplicated token list of all rows |
| Dataset.Dedup | v2/Dataset.py:58-64 | definition; properties in Dataset.DedupMembers and Dataset.DedupFirstOccurrence |
| Dataset.DedupMembers | v2/Dataset.py:58-64 | the de-duplicated list has the same members as the token list, and no repeats |
| Dataset.DedupFirstOccurrence | v2/Dataset.py:58-64 | the distinct words come in the order of their first occurrence |
| Dataset.AllTokensMembers | v2/Dataset.py:60-61 | a word is among all tokens exactly when some row's caption has it |
| Dataset.DistinctWordsMembers | v2/Dataset.py:58-64 | the distinct words have no repeats, and a word is one of them exactly when some row's lower-cased comment yields it as a token |
| Dataset.AllTokensAreTokens | v2/Dataset.py:61 | every collected token is a lower-case token of the pattern |
| Dataset.DistinctWordsClean | v2/Dataset.py:58-64 | every distinct word is a lower-case token, so none is a control token |
| Dataset.VocabularyOfDataset | NeuralModels/Vocabulary.py:34-52 | a vocabulary built from a dataset's distinct words has len == dictionary_length == words + 4, keys the control tokens then the words, and the key invariant |
| Dataset.ImagePath | v2/Dataset.py:71 | definition of the path the image is opened from; properties in Dataset.GetItem |
| Dataset.GetItem | v2/Dataset.py:69-74 | an item exists exactly for positions in [-len, len), otherwise IndexError; it is the image path and the caption tokens of the row at that position, which counts from the end when negative |
| Dataset.PositionFromEnd | v2/Dataset.py:71-72 | a position in [-len, len) names row (idx + len) mod len, counting from the end when negative, as iloc does |
| Dataset.GetFractionOfDataset | v2/Dataset.py:53-56 | definition; properties in Dataset.FractionIsPrefix |
| Dataset.RowCount | v2/Dataset.py:54 | definition of the row count, truncated toward zero in exact arithmetic; properties in Dataset.RowCountRange |
| Dataset.Head | v2/Dataset.py:54 | definition; properties in Dataset.HeadPrefix |
| Dataset.RowCountRange | v2/Dataset.py:54 | for a percentage in [0, 100] the row count is len * p / 100 rounded down, between 0 and len; from 100 up it is at least len |
| Dataset.HeadPrefix | v2/Dataset.py:54 | head(k) is a prefix of the rows, has k rows for k in [0, len], and is all of them from len up |
| Dataset.FractionIsPrefix | v2/Dataset.py:53-56 | the subset keeps the directory and a prefix of the rows; for p in [0, 100] it has len * p / 100 rows, rounded down; from 100 up it is every row |
| Batching.SortByLength | v2/Dataset.py:79 | definition; properties in Batching.SortSorted, Batching.SortPermutation and Batching.SortStable |
| Batching.SortSorted | v2/Dataset.py:79 | the sort yields captions in descending order of length |
| Batching.SortPermutation | v2/Dataset.py:79 | the sort is a permutation of the pairs: every image stays with its caption |
| Batching.SortStable | v2/Dataset.py:79 | the sort is stable: pairs whose captions have the same length keep their input order |
| Batching.SortByCaptionLength | v2/Dataset.py:79 | the caller's list is rewritten in place with the stable descending sort of its old contents |
| Batching.MaxLen | v2/Dataset.py:97 | the padded width bounds every row and is reached by one, or is 0 for no rows |
| Batching.PadSequence | v2/Dataset.py:97-98 | every padded row has the width of the longest row, starts with the original row and is padding after it |
| Batching.PackMinibatchTraining | v2/Dataset.py:76-99 | the caller's array is sorted in place; an empty batch fails with ValueError when unzipped; otherwise the batch is the layout of the sorted pairs |
| Batching.TranslatedRows | v2/Dataset.py:95 | definition of the translated caption rows; properties in Batching.TranslatedRow and Batching.TranslatedWidth |
| Batching.BatchOf | v2/Dataset.py:94-98 | definition; properties in Batching.BatchCaptionRow, Batching.BatchCaptionRows and Batching.BatchTargetsShifted |
| Batching.TranslatedRow | v2/Dataset.py:95 | each translated caption is START, the words' corpus ids and END, two longer than the caption |
| Batching.TranslatedWidth | v2/Dataset.py:97 | after the sort the padded width is the first (longest) caption's length plus two |
| Batching.MaxLenOfTails | v2/Dataset.py:96-98 | dropping the first id of every row shortens the widest row by one |
| Batching.BatchCaptionRow | v2/Dataset.py:94-97 | row i holds its image and raw length, and its caption row is START, the words' ids, END and then PAD, all of the common width |
| Batching.BatchCaptionRows | v2/Dataset.py:94-97 | every row of the padded caption matrix has START first, END right after its words and PAD after that |
| Batching.TargetRowShifted | v2/Dataset.py:96-98 | one row without START is the padded caption row shifted left by one |
| Batching.PadShifted | v2/Dataset.py:96-98 | padding the rows without their first id gives the padded rows, each without its first id |
| Batching.BatchTargetsShifted | v2/Dataset.py:96-98 | the padded rows without START are the padded rows with START, each shifted left by one position |
| Batching.PackOrder | v2/Dataset.py:79-94 | the packed pairs are a stable reordering of the input and the recorded lengths are descending |
| FactoryModels.EncoderValue | NeuralModels/FactoryModels.py:9-10 | definition: CResNet50 has value 0 |
| FactoryModels.DecoderValue | NeuralModels/FactoryModels.py:19-22 | definition: RNetvI, RNetvH and RNetvHC have values 0, 1 and 2; properties in FactoryModels.DecoderOf and FactoryModels.DecoderValuesDistinct |
| FactoryModels.NeuralNetValue | NeuralModels/FactoryModels.py:35-36 | definition: CaRNet has value 0 |
| FactoryModels.DecoderOf | NeuralModels/FactoryModels.py:19-22 | Decoder(v) has a member exactly for v in {0, 1, 2}, whose value is v; otherwise ValueError |
| FactoryModels.DecoderValuesDistinct | NeuralModels/FactoryModels.py:19-22 | decoder values are pairwise distinct, and each value maps back to its member |
| FactoryModels.FactoryEncoder | NeuralModels/FactoryModels.py:12-15 | CResNet50 exactly for the CResNet50 member, otherwise NotImplementedError |
| FactoryModels.FactoryDecoder | NeuralModels/FactoryModels.py:24-31 | a class exactly for a Decoder member, either RNetvI, RNetvH or RNetvHC; an object carrying the three member names without being a member gets NotImplementedError; any other argument fails with AttributeError |
| FactoryModels.FactoryNeuralNet | NeuralModels/FactoryModels.py:38-41 | CaRNet exactly for the CaRNet member, otherwise NotImplementedError |
| FactoryModels.FactoryDecoderDispatch | NeuralModels/FactoryModels.py:24-30 | RNetvI, RNetvH and RNetvHC map to the classes of the same name, every member succeeds, and distinct members give distinct classes |
| FactoryModels.FactoriesTotal | NeuralModels/FactoryModels.py:9-41 | each factory is total over its own enumeration, and no argument is accepted by two factories |

## Left out

- Image loading and the torchvision transforms: the images are an opaque type parameter that travels with its caption.
- The torch tensors that hold the images, and the `embeddings` identity matrix.
- The CSV read, the random shuffle (`sample(frac=1)`) and the filesystem checks in the dataset constructor.
  - A dataset is given directly as its directory and rows, in their shuffled order.
  - The constructor's `head` uses the same arithmetic as `Dataset.GetFractionOfDataset`.
- `pack_minibatch_evaluation`: it never returns. An empty batch fails when unzipped, and any other batch fails with AttributeError when it calls `.map` on the tuple of images (v2/Dataset.py:114).
- `MyDataset.__len__`: it is the row count, `|ds.rows|` in this model, with nothing further to state.
- The models' forward passes, `NeuralNet.py`, the attention and encoder modules, and `main.py`: float arithmetic, autodiff or wiring.
- Dataset.RowCount: is where the difference below lies; it computes `n * p / 100` exactly and truncates toward zero.
- Dataset.GetFractionOfDataset: computes `n * p / 100` exactly and truncates it toward zero. The source computes `len * (p / 100)` in floating point, which can land just below an integer: 100 rows at 29 percent give 28 there and 29 here.
- Text.Lower: lower-cases ASCII upper-case letters only. Python's `str.lower` covers all of Unicode.
- Text.IsWordChar: is the ASCII class `[A-Za-z0-9_]`. Python's `\w` on `str` also matches Unicode letters and digits.
- Vocab.Translation: ids are unbounded integers. The source stores them in an `int32` tensor, which only matters beyond 2^31 words.
- Vocab.Vocabulary.Translate: requires only that the dict holds the control tokens, which the constructor guarantees. It does not require the full construction invariant.
- Vocab.Vocabulary.constructor: takes the word list that `get_all_distinct_words_in_dataset` returns, instead of the dataset. `Dataset.VocabularyOfDataset` connects the two.
- FactoryModels.FactoryDecoder: an argument object is one of the `Tag` kinds; an object with only some of the three member names, or with a custom equality, is not modelled.
- FactoryModels.FactoryDecoder: member-to-member access (`decoder.RNetvI` on a `Decoder` member) is taken to work, as it does on the Python versions that allow it.
- Batching.SortByCaptionLength: models `list.sort` by the list it leaves behind, not by the steps of Python's sorting algorithm.
- The factories return tags naming the classes rather than the classes themselves. The classes are not part of this model.
