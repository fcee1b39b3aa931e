# ipynb-translator core, modelled in Dafny

ipynb-translator translates Jupyter notebooks with a hosted language model. It reads a
notebook and picks out two kinds of cell. Markdown cells are chosen when they hold enough
prose. Code cells are chosen when they hold `#` comments worth translating. It sends the
chosen texts to the model: markdown in batches joined by a cell separator, code one cell
at a time. It cleans the model's replies, writes them back into the notebook, and names
the output file after the input file and the target language.

This project models that core as pure Dafny functions over immutable values and proves
properties about them. The model is split into these modules:

| module | file | models |
|---|---|---|
| `Basics` | basics.dfy | `Option`, `Result` |
| `Strings` | strings.dfy | the Python string operations the source uses: `strip`, `find`, `split`, `join`, `replace`, `lower`, whitespace `split()` |
| `CharClasses` | chars.dfy | character classes: `isalpha`, `isupper` (ASCII only), `\d`, `\w` |
| `Config` | config.dfy | `Config`: supported models, the language table, `SKIP_PATTERNS` as predicates, `get_language_name`, `validate_model_id` |
| `TextUtils` | text_utils.dfy | `TextProcessor`: skip decision, code-only and translatable-content tests, reply cleaning, batch parsing |
| `Comments` | comments.dfy | `TextProcessor.extract_code_comments`, `has_translatable_comments`, `replace_code_comments` |
| `TextUtilsProps` | text_utils_props.dfy | lemmas about `TextUtils` |
| `Engine` | engine.dfy | `NotebookTranslationEngine`: per-cell, batch, fallback and code-comment translation, and the integer statistics |
| `NotebookHandler` | notebook.dfy | `NotebookHandler`: extraction, `get_notebook_info`, the two updates, output name, validation |
| `Paths` | paths.dfy | the parts of `pathlib.Path` the output name uses: parent, stem, suffix |
| `UrlDownloader` | url.dfy | `convert_github_url`, `extract_filename_from_url` |
| `Driver` | driver.dfy | `translate_single_notebook` in main.py: validation, nothing-to-translate, batch chunking, update order |

## How the model works

- **The model provider** is a function `Provider = Request -> Option<string>`. A request
  is a prompt kind plus the text sent. `None` stands for a call that raised, which every
  engine method catches.
- **Results record their calls.** Each engine operation returns `Run(value, calls)`. So
  the contracts can say which requests were made, and say that none was made for
  skipped text. The predicates `AlwaysFails(p)` and `Echoes(p)` describe two provider
  behaviours the lemmas use.
- **The engine takes its text processor as a value.** It is parametrised by a
  `Processor` record holding the `TextProcessor` functions it calls, as the engine holds
  `self.text_processor`. `Engine.Standard` is the real instance. Generic lemmas are
  proved for any processor, instance lemmas for `Standard`.
- **Cells may be malformed.** A notebook cell has an optional type and an optional
  source, because a notebook node may lack either. Python raises `AttributeError` on
  reading a missing one. The model returns `None` or `Err(MissingAttribute(i))` there,
  so validation and its relation to the other operations can be stated.
- **Updates return new values.** The source mutates the notebook in place; the model
  returns the updated notebook.

## Model

| member | source | states |
|---|---|---|
| Config.GetLanguageName | ipynb_translator/config.py:174-176 | a code in the language table gives its name; any other code is returned unchanged |
| Config.ValidateModelId | ipynb_translator/config.py:179-181 | true exactly when the id is one of the supported model ids |
| Config.DefaultModelIsSupported | ipynb_translator/config.py:22 | the default model id passes validation |
| Config.ConstantIsVariableName | ipynb_translator/config.py:164-171 | every text the constant pattern matches is also matched by the identifier pattern; the skip patterns therefore match exactly the numbers, URLs, e-mail addresses, identifiers and shell variables |
| TextUtils.ShouldSkip | ipynb_translator/text_utils.py:16-36 | blank text is skipped; text whose stripped form matches a skip pattern is skipped; stripped text of at most two characters with no letter is skipped; text not skipped has at least two prose words after code is removed |
| TextUtilsProps.SkipByWords | ipynb_translator/text_utils.py:16-54 | a text is sent for translation exactly when it is not blank, its stripped form matches no skip pattern, is longer than two characters or holds a letter, and has two words longer than two characters that are not all upper case |
| TextUtilsProps.SkipIgnoresSurroundingSpace | ipynb_translator/text_utils.py:18-21 | the skip decision is the same for a text and for its stripped form |
| TextUtilsProps.UrlPrefixIsSkipped | ipynb_translator/config.py:166 | any text starting with `http://` or `https://` is skipped |
| TextUtilsProps.EmailPrefixIsSkipped | ipynb_translator/config.py:167 | any text whose first word has the shape `x@y.z` is skipped |
| TextUtilsProps.OnlyCodeByWords | ipynb_translator/text_utils.py:39-54 | a text is code-only exactly when, after code, punctuation, numbers and operators are blanked, no two distinct words are longer than two characters and not all upper case |
| TextUtilsProps.AtLeastTwoWhere | ipynb_translator/text_utils.py:52-54 | counting the words that pass a test gives at least two exactly when two different positions pass it |
| TextUtils.HasTranslatableContent | ipynb_translator/text_utils.py:57-75 | blank markdown has no translatable content; markdown with content has at least two content words |
| TextUtilsProps.TranslatableContentByWords | ipynb_translator/text_utils.py:57-75 | markdown has translatable content exactly when it is not blank and two distinct words, after code and markdown marks are removed, are longer than two characters and hold a letter |
| TextUtils.Blank | ipynb_translator/text_utils.py:46 | each character of the class becomes a space and every other character is kept, position by position |
| TextUtils.FirstPrefix | ipynb_translator/text_utils.py:125-129 | the first unwanted prefix, in list order, that the text starts with ignoring case; none when no prefix matches |
| TextUtils.FirstSuffix | ipynb_translator/text_utils.py:132-136 | the first unwanted suffix, in list order, that the text ends with ignoring case; none when no suffix matches |
| TextUtils.DropPrefix | ipynb_translator/text_utils.py:124-129 | with no phrase of the list at the start the text is kept; otherwise exactly the first matching phrase's length is cut from the front and the rest stripped; the result is a piece of the text |
| TextUtils.DropSuffix | ipynb_translator/text_utils.py:131-136 | with no phrase of the list at the end the text is kept; otherwise exactly the first matching phrase's length is cut from the back and the rest stripped; the result is a piece of the text and stays stripped |
| TextUtils.CleanResponse | ipynb_translator/text_utils.py:93-138 | the cleaned reply is stripped, no longer than the reply, and a contiguous piece of the stripped reply; a reply with no unwanted prefix or suffix is only stripped |
| TextUtils.CleanKeepsPlainText | ipynb_translator/text_utils.py:122-138 | a stripped text with no unwanted prefix or suffix is returned unchanged |
| TextUtilsProps.TranslationPrefixFound | ipynb_translator/text_utils.py:95-101 | a text starting with `Translation:` is caught by that entry of the prefix list, the sixth, not by an earlier one |
| TextUtilsProps.NoSuffixAfterLetter | ipynb_translator/text_utils.py:114-120 | no unwanted suffix matches a text ending in a lower-case letter |
| TextUtilsProps.CleanDropsTranslationPrefix | ipynb_translator/text_utils.py:122-129 | `Translation: x` cleans to `x` when `x` is stripped and ends in a lower-case letter |
| TextUtilsProps.CleanDropsFirstPrefix | ipynb_translator/text_utils.py:122-138 | for every preamble of the list: a reply of that preamble, a space and a stripped text cleans to the text, when the preamble is the first listed one the reply starts with and the text ends with no closing phrase |
| TextUtilsProps.CleanDropsFirstSuffix | ipynb_translator/text_utils.py:122-138 | for every closing phrase of the list: a reply of a stripped text, a space and that phrase cleans to the text, when the phrase is the first listed one the reply ends with and the reply opens with no preamble |
| TextUtilsProps.CleanIsNotIdempotent | ipynb_translator/text_utils.py:125-129 | only one prefix is removed per cleaning: cleaning `Translation: Translation: x` once leaves `Translation: x`, and cleaning again gives `x` |
| TextUtils.ParseBatchResponse | ipynb_translator/text_utils.py:141-149 | one part more than the separators in the cleaned reply; the parts are the stripped pieces of the cleaned reply cut at every separator: the pieces join back to the cleaned reply with the separator, none holds the separator, and no separator starts inside any piece but the last |
| TextUtilsProps.ParseIsTheOnlyCut | ipynb_translator/text_utils.py:141-149 | any list of parts that is such a cut of the cleaned reply is the parse: the cut determines the parts |
| TextUtilsProps.ParsePlainReply | ipynb_translator/text_utils.py:141-149 | a reply whose cleaned form splits into stripped texts parses to exactly those texts |
| TextUtilsProps.JoinedBodyIsClean | ipynb_translator/text_utils.py:122-138 | stripped texts joined by the separator, with no unwanted prefix or suffix, are unchanged by cleaning |
| TextUtilsProps.BatchWireRoundTrip | ipynb_translator/text_utils.py:141-149 | joining stripped texts with the cell separator and parsing the result gives back the same texts, when no separator starts inside a text but the last (even one running on into the next separator), the last holds none, and the join has no unwanted prefix or suffix; texts where three dashes never precede `C`, markdown tables and rules included, meet the separator condition (`HeadFreeAreApart`) |
| TextUtilsProps.HeadFreeAreApart | ipynb_translator/text_utils.py:141-149 | texts in which three dashes are never followed by `C` are kept apart when joined with the separator, so splitting the join gives them back |
| Comments.LineCommentAt | ipynb_translator/text_utils.py:159-165 | a line yields comment `t` exactly when the text before its first `#` has balanced quotes and `t` is the non-empty stripped rest of the line not starting with `#` |
| Comments.ExtractComments | ipynb_translator/text_utils.py:152-173 | every extracted comment names a line of the code, carries that line as its original line, and is that line's comment; comments come in line order |
| Comments.ExtractCommentsComplete | ipynb_translator/text_utils.py:155-171 | every line that has a comment appears among the extracted comments |
| Comments.TranslatableCommentsByLine | ipynb_translator/text_utils.py:78-90 | code has translatable comments exactly when it is not blank and some line's comment is not skipped |
| Comments.ApplyReplacementsSpec | ipynb_translator/text_utils.py:187-197 | with distinct lines, each comment's line becomes its original line up to `#`, a space and its translation; every other line is kept |
| Comments.ReplacedLines | ipynb_translator/text_utils.py:184-197 | the same for the comments extracted from the code: the lines keep their number, commented lines are rebuilt, the rest are kept |
| Comments.ReplaceComments | ipynb_translator/text_utils.py:176-199 | a translation count that differs from the comment count returns the code unchanged; otherwise the rebuilt lines are joined by newlines |
| Comments.RebuildOwnContent | ipynb_translator/text_utils.py:195-196 | rebuilding a line with its own comment gives the line back exactly when one space separates the `#` from the comment and nothing trails it |
| Comments.ReinsertionRoundTrip | ipynb_translator/text_utils.py:152-199 | putting the extracted comments back unchanged gives back the code exactly when every comment is single-spaced in this sense |
| Engine.Unquote | ipynb_translator/translation_engine.py:52-54 | a text not wrapped in matching single or double quotes is kept; a wrapped one loses the quotes and is stripped, and gets shorter |
| Engine.TranslateMarkdownCell | ipynb_translator/translation_engine.py:27-61 | skipped text is returned with no call; otherwise exactly one markdown request is made; a failed call returns the text; a reply is stripped and cleaned, and a cleaned reply wrapped in matching quotes becomes its stripped inside, any other is returned as cleaned |
| Engine.StandardReplyIsStripped | ipynb_translator/translation_engine.py:48-54 | the processed reply is stripped and no longer than the raw reply |
| Engine.QuotedReplyUnwrapped | ipynb_translator/translation_engine.py:48-54 | a reply that is a stripped text in double quotes becomes that text |
| Engine.SkipFlags | ipynb_translator/translation_engine.py:74-80 | one flag per text, set exactly when the text is skipped |
| Engine.KeptAt | ipynb_translator/translation_engine.py:74-80 | the texts sent in a batch are the non-skipped ones in order: the k-th non-skipped text is the k-th one sent |
| Engine.Reassemble | ipynb_translator/translation_engine.py:109-116 | as many results as texts, and skipped texts are kept |
| Engine.ReassembleAt | ipynb_translator/translation_engine.py:109-116 | a non-skipped text takes the next parsed part when one is left and is kept otherwise |
| Engine.ReassembleKept | ipynb_translator/translation_engine.py:109-116 | spreading the sent texts themselves back over their positions restores the input |
| Engine.ReassembleNothing | ipynb_translator/translation_engine.py:109-116 | with no parsed parts every text is kept |
| Engine.Fallback | ipynb_translator/translation_engine.py:189-204 | each text gets the per-cell translation; one markdown request per non-skipped text, each carrying one of the texts |
| Engine.FallbackFailingKeeps | ipynb_translator/translation_engine.py:189-204 | when every call fails, the fallback returns the texts unchanged |
| Engine.TranslateBatch | ipynb_translator/translation_engine.py:63-123 | as many results as texts; no call exactly when every text is skipped, and then the texts are returned; skipped texts never change; the first request is the batch of non-skipped texts joined by the separator; a successful batch call is the only call; a failed one is followed by the per-cell fallback, whose results are returned |
| Engine.BatchResultAt | ipynb_translator/translation_engine.py:105-116 | after a successful batch call, each non-skipped text takes its part of the parsed reply, or is kept when the reply has too few parts |
| Engine.BatchFailingKeeps | ipynb_translator/translation_engine.py:119-123 | when every call fails, the batch returns the texts unchanged |
| Engine.BatchOfKeptParts | ipynb_translator/translation_engine.py:105-116 | a reply that parses to exactly the texts sent leaves every text unchanged |
| Engine.BatchEchoRoundTrip | ipynb_translator/translation_engine.py:63-116 | with a provider that echoes its input, a batch whose sent texts are stripped, are kept apart by the separator as above, and have no unwanted prefix or suffix comes back unchanged |
| Engine.UnfenceBlock | ipynb_translator/translation_engine.py:153-160 | a reply of an opening fence line, body lines and a closing fence line becomes the body lines joined by newlines |
| Engine.UnfenceOneLine | ipynb_translator/translation_engine.py:153-160 | a one-line reply that starts and ends with a fence fails to unwrap, as the source's indexing raises and the original code is returned |
| Engine.TranslateCodeComments | ipynb_translator/translation_engine.py:125-167 | code with no translatable comments is returned with no call; otherwise exactly one request carries the whole cell; a failed call or a failed unwrap returns the code; an unfenced reply is returned cleaned |
| Engine.StandardKeepsFenced | ipynb_translator/text_utils.py:93-138 | cleaning leaves a fenced reply unchanged, so the fence reaches the unwrapping step |
| Engine.FencedReplyUnwrapped | ipynb_translator/translation_engine.py:125-160 | a fenced reply to a code cell with comments gives the code between the fences |
| Engine.TranslateCodeCells | ipynb_translator/translation_engine.py:169-187 | one result per cell, each the single-cell translation; every request is a code-comment request carrying one of the cells |
| Engine.CodeCellsFailingKeep | ipynb_translator/translation_engine.py:169-187 | when every call fails, the code cells come back unchanged |
| Engine.Tally | ipynb_translator/translation_engine.py:218-225 | over the pairs `zip` forms, the translated count is the number of positions whose texts differ and the skipped count the number whose texts are equal; none are translated exactly when the paired prefixes are equal; the character totals are the paired prefixes' lengths |
| Engine.TranslationStats | ipynb_translator/translation_engine.py:206-225 | the same counts, with the total cells being the number of originals |
| Engine.StatsOfUnchanged | ipynb_translator/translation_engine.py:206-225 | comparing texts with themselves counts no translated cell and equal character totals |
| NotebookHandler.ExtractCells | ipynb_translator/notebook_handler.py:54-92 | raises exactly when some cell has no type, or is of the wanted type with no source; otherwise every record names a cell of that type whose non-empty source passes the test, in notebook order |
| NotebookHandler.ExtractCellsComplete | ipynb_translator/notebook_handler.py:58-70 | every cell of the wanted type whose non-empty source passes the test is among the records |
| NotebookHandler.Bump | ipynb_translator/notebook_handler.py:99 | the count of the type goes up by one and no other count changes; an existing key keeps its place and a new one goes last |
| NotebookHandler.TypeCounts | ipynb_translator/notebook_handler.py:96-99 | raises exactly when a cell has no type; otherwise each type's count is its number of cells, the counts sum to the cell count, and keys are distinct |
| NotebookHandler.NotebookInfo | ipynb_translator/notebook_handler.py:94-111 | defined exactly when every cell has a type and every markdown or code cell has a source; then the total is the cell count, the type counts are exact, and the translatable counts are the numbers of extracted cells |
| NotebookHandler.InfoTranslatableBounded | ipynb_translator/notebook_handler.py:94-111 | there are no more translatable markdown cells than markdown cells, and likewise for code |
| NotebookHandler.TranslationMapSpec | ipynb_translator/notebook_handler.py:135-138 | the map's keys are exactly the record positions, and each position maps to the translation of the last record naming it |
| NotebookHandler.UpdateMarkdownCells | ipynb_translator/notebook_handler.py:123-168 | differing counts raise a mismatch; it succeeds exactly when the counts agree and no untouched cell is unreadable as code; then each translated position holds a fresh markdown cell with the translation and the old metadata; an untouched code cell loses its outputs; every other cell is kept, as is the notebook metadata |
| NotebookHandler.UpdateCodeCells | ipynb_translator/notebook_handler.py:170-195 | differing counts raise a mismatch; it succeeds exactly when every translated position has a type; then only the source of a translated code cell changes, and every other cell and all metadata are kept |
| NotebookHandler.OutputFileName | ipynb_translator/notebook_handler.py:222-231 | the output is the input path with `_translated_` and the language inserted just before the name's suffix: the directory and stem are kept, and it ends with `_translated_`, the language and the input's suffix |
| NotebookHandler.NotebookOutputName | ipynb_translator/notebook_handler.py:222-231 | `dir/stem.ipynb` becomes `dir/stem_translated_<language>.ipynb` |
| NotebookHandler.CellVerdict | ipynb_translator/notebook_handler.py:244-252 | a cell passes exactly when its type is present and one of markdown, code or raw, and its source is present; otherwise the verdict names the first check that failed |
| NotebookHandler.ValidateNotebook | ipynb_translator/notebook_handler.py:233-257 | valid exactly when every cell passes; otherwise the verdict is the first failing cell's |
| NotebookHandler.ValidatedIsReadable | ipynb_translator/notebook_handler.py:233-257 | on a valid notebook the summary, both extractions and both updates with matching counts do not raise |
| Paths.BaseName | ipynb_translator/notebook_handler.py:224 | the name holds no `/`, and directory plus name is the path |
| Paths.SuffixStart | ipynb_translator/notebook_handler.py:225-226 | the suffix starts at the name's last dot when that dot is neither its first nor its last character, and there is no suffix otherwise |
| Paths.StemSuffix | ipynb_translator/notebook_handler.py:225-229 | stem followed by suffix is the name |
| Paths.PathParts | ipynb_translator/notebook_handler.py:224-229 | a directory ending in `/` followed by a name without `/` splits back into that directory and name |
| Paths.IpynbStemSuffix | ipynb_translator/notebook_handler.py:225-229 | a dot-free stem with `.ipynb` has that stem and the suffix `.ipynb` |
| UrlDownloader.RawUrlOfBlobUrl | ipynb_translator/url_downloader.py:17-21 | the corrected conversion takes `https://github.com/o/r/blob/t` to `https://raw.githubusercontent.com/o/r/t` for any tail `t` |
| UrlDownloader.ConvertGithubUrl | ipynb_translator/url_downloader.py:17-21 | a URL lacking `github.com` or `/blob/` is returned unchanged; the blob case is stated by `ConvertDropsBlobDirectory` |
| UrlDownloader.ConvertDropsBlobDirectory | ipynb_translator/url_downloader.py:19-20 | the conversion as written also removes a `blob` directory inside the tail, so it differs from the corrected one; stated for owner, repository and branch names without the letters `g` and `l`, which keeps `github.com` and `/blob/` from occurring inside them |
| UrlDownloader.ConvertDropsBlobDirectoryExample | ipynb_translator/url_downloader.py:19-20 | the as-written conversion takes `.../u/r/blob/main/blob/nb.ipynb` to `.../u/r/main/nb.ipynb` |
| UrlDownloader.WithNotebookExtension | ipynb_translator/url_downloader.py:29-30 | the result ends in `.ipynb`; a name already ending in it is kept, any other gains it |
| UrlDownloader.ExtensionIdempotent | ipynb_translator/url_downloader.py:29-30 | adding the extension twice is the same as adding it once |
| UrlDownloader.ExtractFilename | ipynb_translator/url_downloader.py:24-32 | the last segment of the URL's path is kept when it already ends in `.ipynb`, and otherwise gets `.ipynb` appended once |
| UrlDownloader.HttpsUrlPath | ipynb_translator/url_downloader.py:26 | the path of `https://host/path` with no query, fragment or parameters is `/path` |
| UrlDownloader.NotebookUrlName | ipynb_translator/url_downloader.py:24-32 | the file name of `https://host/dir/name.ipynb` is `name.ipynb` |
| Driver.Chunks | ipynb_translator/main.py:66-67 | the slices make up the texts in order, each holds 1 to b texts, and all but the last hold exactly b |
| Driver.ChunkCount | ipynb_translator/main.py:198-202 | the progress total `(n - 1) // b + 1` that the `translate` command prints is the number of slices of `n > 0` texts |
| Driver.TranslateChunks | ipynb_translator/main.py:65-69 | the results of the slices, concatenated in order: as many results as texts, and the texts themselves when no call is made |
| Driver.TranslateChunksAt | ipynb_translator/main.py:65-69 | each result is the one its own slice's batch gives it |
| Driver.TranslateInBatches | ipynb_translator/main.py:61-71 | no texts give no results; a zero batch size with texts raises; a negative one gives no results; otherwise as many results as texts; texts that fit in one batch are one batch call; for a positive batch size the result is the chunk-by-chunk translation of the texts cut into slices of that size |
| Driver.ShortcutIsOneChunk | ipynb_translator/main.py:62-69 | the single-batch shortcut agrees with slicing into batches |
| Driver.InBatchesFailingKeep | ipynb_translator/main.py:61-71 | when every call fails, batching returns the texts unchanged |
| Driver.ApplyTranslations | ipynb_translator/main.py:88-92 | nothing to update leaves the notebook as it was; a markdown count mismatch raises; on success the cell count and metadata are kept |
| Driver.UpdateOrder | ipynb_translator/main.py:88-92 | on a valid notebook, markdown records become markdown cells holding their translations; code records get their translations as source, keeping outputs only when no markdown update ran; every other cell is kept except that code cells lose outputs after a markdown update |
| Driver.CodeSparesMarkdown | ipynb_translator/main.py:91-92 | the code update does not touch the cells the markdown update wrote |
| Driver.IdentityWriteBack | ipynb_translator/main.py:88-92 | writing each record's own text back keeps every cell's type and source |
| Driver.InfoOfValid | ipynb_translator/main.py:45-46 | on a valid notebook the translatable counts are zero exactly when extraction finds nothing |
| Driver.TranslateNotebook | ipynb_translator/main.py:30-92 | an invalid notebook is refused with its verdict; there is nothing to translate exactly when both extractions are empty, or the markdown one is empty and code is not translated; a zero batch size with markdown raises; a negative one ends in a count mismatch; on success cell count and metadata are kept, every markdown record's cell holds its batch translation and, with code translation on, every code record's cell its code translation (`WrittenBack`) |
| Driver.TranslateRecords | ipynb_translator/main.py:51-92 | on a valid notebook with its extracted records, success exactly when the batch size is positive or there is no markdown; on success each markdown record's cell is a fresh markdown cell holding its text's batch translation, each code record's cell takes its code translation as source, and every other cell is kept but for outputs cleared by the markdown update (`WrittenBack`) |
| Driver.UpdateWritesBack | ipynb_translator/main.py:88-92 | the two updates put each translation into its own record's cell, as `WrittenBack` states |
| Driver.FailingProviderKeepsText | ipynb_translator/main.py:30-92 | when every call fails, a successful run keeps every cell's type and source |

## Left out

- File I/O: `load_notebook`, `save_notebook`, `download_notebook`, `find_notebooks`. The model works on notebook values and names only.
- The model service. The Bedrock client, retries, prompts (prompts.py), `KOREAN_TERMINOLOGY` and the polishing flag are left out. The provider is an arbitrary deterministic function of the request, and the target language is not part of a request.
- The command-line layer and the MCP server: option parsing, progress bars, messages, `translate_folder`, `info`, `list_languages`, `list_models`, `check_credentials`, mcp_server.py.
- The translate_url command's own flow. It chunks without the `if markdown_texts` guard and translates markdown only. `Driver.TranslateNotebook` models `translate_single_notebook` and the `translate` command, which do the same steps.
- The output path. The driver returns the translated notebook and its calls; choosing `output_path` over the generated name is left out.
- Environment configuration and AWS credentials. `DEFAULT_MODEL_ID` is its default value; `TRANSLATE_CODE_CELLS` is a parameter.
- Floating point: the average lengths and the length ratio in `get_translation_stats`, and `TEMPERATURE`.
- `get_notebook_info`'s kernel and language fields (nbformat metadata lookups). `preview_translations` and all logging are left out too.
- nbformat details: a notebook without a `cells` list (the model's notebook always has one), version fields, cell ids, attachments, execution counts other than as opaque values. A code cell's missing `outputs` is modelled as an empty list. The validation message text is a verdict datatype, not a string.
- Unicode. Whitespace is Python's exact `isspace` set. Letters (`isalpha`, `\w`) are ASCII letters and the Hangul syllables U+AC00 to U+D7A3 only; every other script, accented Latin, CJK and kana included, counts as non-letter, so `str.isalpha()` and `\w` are narrower than Python's. `lower()` covers ASCII and Latin-1 upper case. `isupper()` looks at ASCII letters only, so a word of Greek or Cyrillic capitals such as `ΑΒΓ` is not upper case in the model and counts as a prose word, where Python would treat `ΑΒΓ ΔΕΖ` as code only. `\d` is ASCII digits.
- URL parsing. `urlparse` is modelled for the scheme, authority, parameters, query and fragment splits; its stripping of surrounding whitespace and control characters is not.
- `Path` normalisation. Repeated or trailing slashes, `.` and `..` components, and Windows separators are not modelled.
- In-place mutation. The updates return new notebook values; the caller uses the returned notebook, as main.py does.
- `replace_code_comments` is modelled on its own (`Comments.ReplaceComments`); the engine does not call it, so neither does the model.
- TextUtils.RemoveFencedCode: the contract states only that the result is no longer than the text and that text without a fence is kept; the lazy match itself is in the body, not proved against a regular-expression reference.
- TextUtils.RemoveInlineCode: likewise states only the length bound and that text without a backtick is kept.
- TextUtils.BlankNumbers: likewise states only the length bound and that text without a digit is kept; the word-boundary rule is in the body.
- UrlDownloader.ConvertGithubUrl: its own contract states only that a URL that is not a GitHub blob URL is returned unchanged; what it does to blob URLs is stated by `ConvertDropsBlobDirectory` and its example.
- UrlDownloader.UrlPath and UrlDownloader.PathName: their contracts state only that the path holds no query or fragment and the name no `/`; their values on notebook URLs are stated by `HttpsUrlPath` and `NotebookUrlName`.
- Engine.Unfence: its contract states only that a reply without fences is kept; `UnfenceBlock` and `UnfenceOneLine` state the fenced cases.
- Driver.ApplyTranslations: the error cases stated are the count mismatches only. The markdown update may also raise `MissingAttribute` on an invalid notebook, which the driver never passes it.

## Findings

| source | as written | input that shows it | evidently intended | confidence | as-written member | corrected member |
|---|---|---|---|---|---|---|
| ipynb_translator/url_downloader.py:17-21 | every `/blob/` in the URL is replaced by `/`, not only the one after owner and repository | `https://github.com/u/r/blob/main/blob/nb.ipynb` converts to `https://raw.githubusercontent.com/u/r/main/nb.ipynb` | `https://raw.githubusercontent.com/u/r/main/blob/nb.ipynb`, the same file on the raw host | not executed | UrlDownloader.ConvertDropsBlobDirectory | UrlDownloader.RawUrlOfBlobUrl |
