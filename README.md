# anki_cards in Dafny

`anki_cards` turns Markdown notes into an Anki flash-card package. A note file holds
fenced blocks opened by three backticks and `anki`; each block body is YAML whose keys
(`q`, `a`, `deck`, `tags`, …) are mapped onto the fields of a note type. The note type
itself is described in a YAML definition that is validated before use. This project
models, and proves properties of:

- **the note-type definition** (`ModelFromYaml`): the template field-reference scanner
  `TEMPLATE_FIELD_RE`, the validators of `AnkiModelDefinition` (non-empty field and
  template lists, positive id, template references declared or built in, the default
  `q`/`a`/`tags` key map, mapped fields declared) and the failure classification of
  `load_and_validate_model`;
- **the default deck name** (`DeckNames`): `calculate_deck_name`, the root's name and
  the directories down to the file joined by `::`;
- **the fenced-block scanner** (`AnkiBlocks`): `ANKI_BLOCK_RE` with `finditer`, including
  the regex engine's backtracking through `\s*\n` and the lazy body;
- **image processing** (`ImageTags`): `IMG_SRC_RE`, its greedy `[^>]*` and its negative
  lookahead, and `process_field_for_images`, which substitutes every match through
  `replace_src` and collects the image files found;
- **card extraction** (`CardExtraction`): `find_anki_cards_in_file`, its loop over blocks
  and its inner loop over the key map with the `processed_ok` flag and `break`;
- **packaging** (`Packaging`): the grouping half of `generate_anki_package` — one deck per
  distinct deck value, deck ids, notes with fields in the note type's order, and the
  sorted, duplicate-free media list.

Supporting modules: `Wrappers` (Option, Result), `Strings` (search, `replace(…, 1)`,
`join`, ASCII `lower`, Python's `\s` and the `IGNORECASE` letter equivalences),
`Paths` (paths as component sequences and the file-system oracle), `Yaml` (parsed values)
and `Sorting` (Python's string order and `sorted(set(…))`).

The loops of the source are methods with loop invariants, each proved against a
function that specifies it (`ProcessFieldForImages` against `Substitute`,
`FindAnkiCardsInFile` against `FileExtraction`, `MapFields` against `MappedFields` and
`MappedMedia`, `GenerateAnkiPackage` against `GeneratePackage`); what the source promises
is proved about those functions as lemmas. The validators are pure and are modelled as
a function returning a `Result`.

Behaviour worth knowing that the model keeps as the code has it:
- The YAML body of a block reaches the model already parsed; a value is `Null`, a string,
  another hashable scalar, or an unhashable list or mapping, each with its `str()` text.
- A `deck` value that is a YAML list or mapping makes `generate_anki_package` raise at the
  dictionary lookup (`deck_name not in decks`); the model has an outcome for this.
- `guid_basis` prints `None` for an unmapped `q` or `a`.
- Only a `src="…"` written in lower case can be rewritten, since `str.replace` is
  case-sensitive while the regex is not: a match written `SRC="x"` whose file exists is
  collected as media but its tag is left as it is.
- `{{ Q }}` references the name ` Q ` (no trimming); a section mark alone, `{{#}}`,
  references `#`.

## Model

| member | source | states |
|---|---|---|
| Strings.FindCharSpec | src/anki_cards/main.py:24-26 | the character search behind `[^"]+"` and `[^>]*>` returns the first position holding the character, or none exists |
| Strings.ReplaceFirstSpec | src/anki_cards/main.py:66 | `replace(old, new, 1)` keeps the text when `old` is absent and otherwise replaces exactly the first occurrence |
| Strings.Lower | src/anki_cards/main.py:99 | `lower()` keeps the length and lower-cases character by character |
| Strings.AtIsAtIgnoreCase | src/anki_cards/main.py:22 | a literal occurrence of a lower-case pattern also matches under `IGNORECASE` |
| Sorting.SortedUnique | src/anki_cards/main.py:256 | `sorted(set(xs))` is strictly increasing and holds exactly the elements of `xs` |
| Sorting.SortedUniqueness | src/anki_cards/main.py:256 | two strictly increasing lists with the same elements are equal, so the sorted media list is determined by its set |
| Sorting.SortedIsDistinct | src/anki_cards/main.py:256 | a strictly increasing list has no duplicates |
| Sorting.LessTotal | src/anki_cards/main.py:256 | Python's string order relates any two different strings |
| Sorting.LessTransitive | src/anki_cards/main.py:256 | Python's string order is transitive |
| Sorting.LessIrreflexive | src/anki_cards/main.py:256 | no string is less than itself |
| ModelFromYaml.NameFrom | src/anki_cards/model_from_yaml.py:12 | the lazy `([^}]+?)\}\}` captures a non-empty name free of `}` followed by `}}` |
| ModelFromYaml.RefAt | src/anki_cards/model_from_yaml.py:12 | a match at a position is a well-formed reference `{{name}}` or `{{<mark>name}}` occurring there |
| ModelFromYaml.RefsFrom | src/anki_cards/model_from_yaml.py:58-60 | every captured name is a well-formed reference name occurring in the format string |
| ModelFromYaml.NoBracesNoRefs | src/anki_cards/model_from_yaml.py:12 | a format string without `{{` references nothing |
| ModelFromYaml.SingleRef | src/anki_cards/model_from_yaml.py:12 | `{{name}}` captures the name exactly, without trimming, dropping a leading `#`, `/` or `^` unless it is the whole name |
| ModelFromYaml.Lookup | src/anki_cards/main.py:101-103 | `yaml_field_map.get(key)` finds a value exactly when some entry has the key, and the entry holds that value |
| ModelFromYaml.LookupAt | src/anki_cards/main.py:173 | every entry of the key map is what looking up its key returns |
| ModelFromYaml.LookupAbsent | src/anki_cards/main.py:173 | a key no entry has is not found |
| ModelFromYaml.CheckTemplates | src/anki_cards/model_from_yaml.py:50-87 | a failure of the template check is an undefined-fields error |
| ModelFromYaml.CheckTemplatesPass | src/anki_cards/model_from_yaml.py:50-87 | the template check passes exactly when every template's `qfmt` and `afmt` use only declared or built-in names |
| ModelFromYaml.CheckTemplatesFirst | src/anki_cards/model_from_yaml.py:56-85 | a failure names the first failing template, `qfmt` before `afmt`, with the full non-empty set of undefined names of that side |
| ModelFromYaml.FirstWithLower | src/anki_cards/model_from_yaml.py:98-101 | the name found is one of the names |
| ModelFromYaml.FirstWithLowerFound | src/anki_cards/model_from_yaml.py:98-101 | the name found is the first whose lower-cased form is the target |
| ModelFromYaml.FirstWithLowerNone | src/anki_cards/model_from_yaml.py:98-101 | nothing is found exactly when no name lower-cases to the target |
| ModelFromYaml.DefaultKeyMapLookups | src/anki_cards/model_from_yaml.py:92-101 | the synthesized map sends `q` to the first field, `a` to the second and `tags` to the first field whose lower-cased name is `tags`, if any |
| ModelFromYaml.DefaultKeyMapNames | src/anki_cards/model_from_yaml.py:92-101 | the synthesized map has only the keys `q`, `a`, `tags` and maps only to declared fields |
| ModelFromYaml.DefaultKeyMapSpec | src/anki_cards/model_from_yaml.py:91-106 | no map can be synthesized exactly when there are fewer than two fields; otherwise the map is as above |
| ModelFromYaml.Validate | src/anki_cards/model_from_yaml.py:38-116 | field-validator errors occur exactly for a non-positive id or an empty list, each error exactly when its condition holds; the template error exactly when those pass and some template fails; the default-mapping error exactly when those pass, no map is given and there are fewer than two fields; the mapped-fields error names exactly the undeclared mapped fields; success returns the input with its final key map and a valid schema |
| ModelFromYaml.DefaultMapOnSuccess | src/anki_cards/model_from_yaml.py:91-101 | a definition accepted without a key map has at least two fields and carries the synthesized `q`/`a`/`tags` map |
| ModelFromYaml.ExplicitMapKept | src/anki_cards/model_from_yaml.py:89-116 | an explicitly given key map is kept unchanged |
| ModelFromYaml.DefaultMapAlwaysDeclared | src/anki_cards/model_from_yaml.py:93-114 | the synthesized map never fails the mapped-field check |
| ModelFromYaml.ValidSchemaRoundTrip | src/anki_cards/model_from_yaml.py:38-116 | the data of a valid schema, with its key map explicit, validates back to the same schema |
| ModelFromYaml.LoadAndValidateModel | src/anki_cards/model_from_yaml.py:120-152 | a missing file gives the file-not-found error, a YAML syntax error the invalid-YAML error, a document without the definition's shape or rejected by the validators the invalid-definition error (carrying the validator's error), and success exactly the validated schema |
| DeckNames.DeckName | src/anki_cards/main.py:29-35 | the deck name starts with the root's name, and is exactly that name for a file directly in the root |
| DeckNames.RelativeParts | src/anki_cards/main.py:31 | the parts relative to the root, appended to the root, give back the file |
| DeckNames.Directories | src/anki_cards/main.py:34 | `relative_path.parts[:-1]`: the components strictly between the root and the file's name |
| DeckNames.FileInRootDeck | src/anki_cards/main.py:29-35 | a file directly in the root gets the root's name as its deck |
| DeckNames.SubdirectoryDeck | src/anki_cards/main.py:34-35 | one more directory level adds one more `::`-separated component at the end |
| DeckNames.SplitJoin | src/anki_cards/main.py:35 | splitting a `::`-joined name at `::` gives back the parts when none holds a colon |
| DeckNames.DeckHierarchy | src/anki_cards/main.py:29-35 | the deck name splits into the root's name followed by the directories down to the file |
| DeckNames.NestedFileDeck | src/anki_cards/main.py:29-35 | `/tmp/notes/programming/python/test.md` under `/tmp/notes` gets `notes::programming::python` |
| AnkiBlocks.SpaceRun | src/anki_cards/main.py:22 | greedy `\s*` takes the longest run of whitespace |
| AnkiBlocks.TryNewlines | src/anki_cards/main.py:22 | backtracking through `\s*\n` yields a match at the tag whose body starts right after a newline of the whitespace run |
| AnkiBlocks.TryNewlinesWellFormed | src/anki_cards/main.py:22 | a candidate taken while backtracking through `\s*\n` is a well-formed match at the tag's position |
| AnkiBlocks.TryNewlinesNone | src/anki_cards/main.py:22 | backtracking fails only when no newline of the whitespace run is followed by a closing fence |
| AnkiBlocks.TryNewlinesSome | src/anki_cards/main.py:22 | backtracking takes the last newline of the run that a closing fence follows; the lazy body ends at the first closing fence after it |
| AnkiBlocks.TryNewlinesHere | src/anki_cards/main.py:22 | the last whitespace position, when a newline with a closing fence after it, is taken at once |
| AnkiBlocks.TryNewlinesSkip | src/anki_cards/main.py:22 | a position that is not such a newline is passed over |
| AnkiBlocks.BlockAt | src/anki_cards/main.py:22 | a match at a position is well formed, starts there and ends within the text |
| AnkiBlocks.BlockAtSpec | src/anki_cards/main.py:22 | the regex fails at a position exactly when the tag is missing or no newline after it is followed by a closing fence; otherwise the body starts after the last such newline and ends at the first closing fence |
| AnkiBlocks.BlocksFrom | src/anki_cards/main.py:107 | `finditer` returns well-formed matches, each what the regex matches at its start, in document order and without overlap: each starts at or after the scan's position and ends before the next one starts |
| AnkiBlocks.BlocksLeftmost | src/anki_cards/main.py:107 | no match is skipped: no match starts before, between or after the returned ones |
| AnkiBlocks.AllMatchesAt | src/anki_cards/main.py:107 | each returned block is the regex's match at its own start |
| AnkiBlocks.BlockBodies | src/anki_cards/main.py:107-108 | one body per match, each its group 1 and free of a closing fence, each body lying strictly after the previous one in the document |
| AnkiBlocks.BodyHasNoClose | src/anki_cards/main.py:22 | a body never contains a newline followed by three backticks |
| AnkiBlocks.AnyCaseOpens | src/anki_cards/main.py:22 | the tag `anki` in any capitalization opens a block |
| AnkiBlocks.SingleBlockClose | src/anki_cards/main.py:22 | in a one-block document the first closing fence after the opening line is the final one |
| AnkiBlocks.SingleBlockMatch | src/anki_cards/main.py:22 | a one-block document whose body is empty or does not start with whitespace matches at its start with everything between the fences as the body |
| AnkiBlocks.SingleBlock | src/anki_cards/main.py:107-108 | a one-block document whose body is empty or does not start with whitespace yields exactly its body |
| ImageTags.SrcAt | src/anki_cards/main.py:24-26 | the rest of the regex after `[^>]*` matches with `src="` at the given position |
| ImageTags.TrySrc | src/anki_cards/main.py:24-26 | the greedy `[^>]*` backs off to a stopping point in range from which the rest matches |
| ImageTags.TrySrcNone | src/anki_cards/main.py:24-26 | backing off fails only when the rest matches from no stopping point |
| ImageTags.TrySrcSome | src/anki_cards/main.py:24-26 | the stopping point taken is the last one from which the rest matches |
| ImageTags.Limit | src/anki_cards/main.py:25 | where `[^>]*` must stop lies within the text after `<img ` |
| ImageTags.LimitSpec | src/anki_cards/main.py:25 | that limit is the first `>` after `<img `, or the end of the text |
| ImageTags.ImgAt | src/anki_cards/main.py:24-26 | a match at a position is a well-formed `<img … src="…" …>` tag starting there |
| ImageTags.CandidateIsImg | src/anki_cards/main.py:24-26 | every candidate before the first `>` from which the rest matches gives a well-formed tag |
| ImageTags.ImgAtNone | src/anki_cards/main.py:24-26 | the regex fails at a position exactly when `<img` plus whitespace is missing or no candidate before the first `>` lets the rest match |
| ImageTags.ImgAtLastCandidate | src/anki_cards/main.py:24-26 | a match uses the last candidate before the first `>` from which the rest matches |
| ImageTags.RemoteSrcNeverMatched | src/anki_cards/main.py:24-26 | a captured `src` never starts with `http://`, `https://` or `data:`, in any case |
| ImageTags.ReplaceSrc | src/anki_cards/main.py:52-75 | a path is recorded exactly when the resolved `src` is a file, and it is that resolved path; a tag whose image is missing, or that holds no `src="<value>"`, is returned unchanged |
| ImageTags.Step | src/anki_cards/main.py:52-77 | one step of `sub` advances and records only existing files |
| ImageTags.SubFrom | src/anki_cards/main.py:77 | every path `replace_src` records is an existing file |
| ImageTags.SubFromUnfold | src/anki_cards/main.py:77 | the substitution is the step's text followed by the rest's, its paths the step's followed by the rest's |
| ImageTags.StepOnMatch | src/anki_cards/main.py:52-77 | at a match the step emits what `replace_src` returns and resumes after the tag |
| ImageTags.ProcessFieldForImages | src/anki_cards/main.py:38-80 | the processed text is the substitution of every match, and the media are the recorded paths, each once |
| ImageTags.UniqueMedia | src/anki_cards/main.py:79 | `list(set(found))` holds each recorded path's text exactly once |
| ImageTags.CopiedUpTo | src/anki_cards/main.py:77 | text in which no match starts is copied unchanged |
| ImageTags.StepCopies | src/anki_cards/main.py:68-77 | a step whose image is not a file copies its text and records nothing |
| ImageTags.UnchangedWithoutLocalFiles | src/anki_cards/main.py:59-77 | when no matched image is an existing file the text is unchanged and nothing is collected |
| ImageTags.NoImageIdentity | src/anki_cards/main.py:77-80 | text without a qualifying `<img>` comes back unchanged with no media |
| ImageTags.ExistingFileRewritten | src/anki_cards/main.py:59-67 | a match whose image exists records the resolved path, resumes after the tag, and rewrites the first `src="<value>"` of the tag (at or before the matched attribute) to `src="<file name>"`, or keeps the tag when it holds no such text |
| ImageTags.MatchedSrcRewritten | src/anki_cards/main.py:64-66 | a lower-case matched attribute is rewritten, or an identical one before it |
| ImageTags.TagWithoutSrcKept | src/anki_cards/main.py:66 | a tag without `src="<value>"` (an upper-case `SRC`) is kept as it is |
| ImageTags.MatchedAttributeInTag | src/anki_cards/main.py:64-66 | a lower-case matched attribute occurs, quotes included, inside the matched tag |
| ImageTags.FirstSrcRewritten | src/anki_cards/main.py:66 | the first `src="<value>"` of the tag is the one replaced |
| ImageTags.MatchesFrom | src/anki_cards/main.py:77 | the matches `sub` meets are well-formed tags found by the regex at their own start, none before the scan's position, each ending before the next one starts |
| ImageTags.FoundAreMatchedFiles | src/anki_cards/main.py:52-77 | the paths `replace_src` records are the resolved paths of the matched images that are files, in match order |
| ImageTags.InFilesOf | src/anki_cards/main.py:59-62 | a path is recorded exactly when some match resolves to it and it is a file |
| ImageTags.CollectedExactly | src/anki_cards/main.py:52-80 | the field's media are exactly the texts of the resolved paths of its matched images that are files: every such image is collected, and nothing else |
| ImageTags.MatchedFileCollected | src/anki_cards/main.py:59-80 | every matched image that is a file, first or later in the field, is among the returned media |
| CardExtraction.LastWriter | src/anki_cards/main.py:129-150 | the last key other than `tags` mapping to a field is an earlier entry that writes it |
| CardExtraction.LastWriterSpec | src/anki_cards/main.py:129-150 | no later entry writes that field; with no writer, no entry does |
| CardExtraction.MappedFieldsKeys | src/anki_cards/main.py:129-150 | a field is written exactly when some key other than `tags` maps to it |
| CardExtraction.MappedFieldsValue | src/anki_cards/main.py:129-150 | a written field holds the processed value of the last such key |
| CardExtraction.MappedFieldsSpec | src/anki_cards/main.py:129-150 | both of the above together |
| CardExtraction.GuidBasis | src/anki_cards/main.py:173 | the basis ends with the separator, the deck's text, the separator and the file's relative path; the full basis of a card is stated by `CardContents` |
| CardExtraction.CardOf | src/anki_cards/main.py:156-174 | the source-file field, when the note type has one, holds the relative path; without a `deck` key the card's deck is the default deck name |
| CardExtraction.BlockCard | src/anki_cards/main.py:112-154 | a block yields a card exactly when its body parses to a mapping with a value for every key other than `tags` |
| CardExtraction.Outcomes | src/anki_cards/main.py:107 | one outcome per block |
| CardExtraction.OutcomeAt | src/anki_cards/main.py:107-194 | each outcome is what its own block body gives |
| CardExtraction.FindAnkiCardsInFile | src/anki_cards/main.py:83-199 | the loop over blocks returns exactly the cards and media of the file's extraction |
| CardExtraction.CardFromBlock | src/anki_cards/main.py:108-194 | the loop body gives exactly the block's card and media, or nothing for an unparsable, non-mapping or incomplete block |
| CardExtraction.MapFields | src/anki_cards/main.py:124-154 | the inner loop fails exactly when some key other than `tags` has no value; otherwise it yields the mapped fields and their media |
| CardExtraction.MapEntry | src/anki_cards/main.py:130-151 | one key stops the loop exactly when it is not `tags` and has no value; otherwise it extends the fields and media by its own |
| CardExtraction.ProcessValue | src/anki_cards/main.py:146-151 | a value's text is `str(value)` after image processing and its media are the files found |
| CardExtraction.MappedSkip | src/anki_cards/main.py:130-131 | the `tags` key adds no field and no media |
| CardExtraction.MappedAdd | src/anki_cards/main.py:133-151 | any other key sets its field to the processed value and adds that value's media |
| CardExtraction.CompleteStep | src/anki_cards/main.py:133-143 | a key with a value, or `tags`, keeps the mapping complete so far |
| CardExtraction.IncompleteAt | src/anki_cards/main.py:133-143 | a key other than `tags` with no value makes the block incomplete |
| CardExtraction.FoundSet | src/anki_cards/main.py:151 | a field's media list, as a set, is the media of that field |
| CardExtraction.CollectStep | src/anki_cards/main.py:176-177 | an accepted block appends its card and adds its media; a dropped one changes nothing |
| CardExtraction.CollectConcat | src/anki_cards/main.py:176-177 | collecting two runs of outcomes concatenates their cards and unites their media |
| CardExtraction.ExtractConcat | src/anki_cards/main.py:107-177 | the extraction of two runs of blocks is the concatenation of their cards, in order, with the union of their media |
| CardExtraction.OutcomesSnoc | src/anki_cards/main.py:107 | one more block adds its own outcome at the end |
| CardExtraction.OutcomesConcat | src/anki_cards/main.py:107 | blocks are handled independently of one another |
| CardExtraction.RejectedBlockDropped | src/anki_cards/main.py:112-194 | an unparsable, non-mapping or incomplete block is dropped without affecting the other blocks' cards or media |
| CardExtraction.CollectAll | src/anki_cards/main.py:107-176 | when every outcome is a card there is one card per outcome, in order |
| CardExtraction.OneCardPerBlock | src/anki_cards/main.py:107-176 | when every block is accepted there is exactly one card per block, in block order |
| CardExtraction.CardContents | src/anki_cards/main.py:97-173 | the deck is the block's `deck` value or the default deck, the tags are the block's `tags` or an empty list, the source-file field holds the relative path, every other field holds the processed value of the last key other than `tags` mapping to it, and the GUID basis is the card's own question field, answer field (the text `None` when absent), deck and relative path joined by the separator |
| CardExtraction.MappedFieldsPresent | src/anki_cards/main.py:129-150 | every field a key other than `tags` maps to is present in the card |
| CardExtraction.TagsNeverInFields | src/anki_cards/main.py:129-165 | a field only `tags` maps to is never written |
| CardExtraction.GuidUnmappedQuestion | src/anki_cards/main.py:173 | with `q` unmapped, the basis starts with the text `None` |
| CardExtraction.GuidBasisHead | src/anki_cards/main.py:173 | the basis starts with the question field's text followed by the separator |
| CardExtraction.FieldMediaAreFiles | src/anki_cards/main.py:59-62 | every media path of a field names an existing file |
| CardExtraction.MappedMediaAreFiles | src/anki_cards/main.py:151 | every media path of a card names an existing file |
| CardExtraction.CollectedMedia | src/anki_cards/main.py:177 | every collected media path comes from an accepted card |
| CardExtraction.MediaAreFiles | src/anki_cards/main.py:151-177 | every media path a file yields names an existing file |
| CardExtraction.FieldMediaInMapped | src/anki_cards/main.py:151 | the media of every value a key other than `tags` maps are among the card's media |
| CardExtraction.CollectIncludes | src/anki_cards/main.py:177 | an accepted block's media are among the file's media |
| CardExtraction.AcceptedImageCollected | src/anki_cards/main.py:129-177 | every image file a mapped value of an accepted block refers to, wherever it stands in the value, is among the file's media |
| CardExtraction.SingleBlockFile | src/anki_cards/main.py:105-199 | a file that is one block yields that block's card and media when accepted, and nothing otherwise |
| CardExtraction.CollectOne | src/anki_cards/main.py:176-177 | one outcome collects to its card and media, or to nothing |
| CardExtraction.UnreadableFile | src/anki_cards/main.py:196-199 | a file that cannot be read yields no cards and no media |
| Packaging.DeckIdBase | src/anki_cards/main.py:211 | the id base lies in [2000000000, 2500000000) whatever the hash |
| Packaging.DeckId | src/anki_cards/main.py:221 | a new deck's id lies within 100000000 above the base |
| Packaging.NoteOf | src/anki_cards/main.py:226-240 | a note has one field per note-type field, in that order, holding the card's text or `""` |
| Packaging.OrderedFields | src/anki_cards/main.py:226-228 | one text per note-type field, in its order: the card's field, or `""` when the card has none |
| Packaging.AddCard | src/anki_cards/main.py:218-241 | one iteration keeps each deck listed once, named by its key, with its id in range |
| Packaging.AddCardNotes | src/anki_cards/main.py:219-241 | one iteration appends the card's note, when accepted, to its own deck and to no other |
| Packaging.GroupAll | src/anki_cards/main.py:217-249 | the loop leaves a coherent dictionary, or stops at an unhashable deck value |
| Packaging.Values | src/anki_cards/main.py:262 | `decks.values()` lists the decks in insertion order, each under its own name |
| Packaging.GeneratePackage | src/anki_cards/main.py:202-262 | a crash names an unhashable deck value; a package's media list is strictly sorted and holds exactly the given media |
| Packaging.GenerateAnkiPackage | src/anki_cards/main.py:202-275 | the loop returns exactly the specified outcome: no package, the package's decks and media, or the unhashable-deck crash |
| Packaging.FailureSticks | src/anki_cards/main.py:217-219 | once an unhashable deck value is met, later cards change nothing |
| Packaging.OrderStep | src/anki_cards/main.py:219-222 | a new deck value adds one deck at the end; a known one adds none |
| Packaging.DecksOfCards | src/anki_cards/main.py:219-222 | the decks are exactly the distinct deck values of the cards |
| Packaging.DecksFirstSeen | src/anki_cards/main.py:219-222 | the decks are in the order their values first appear |
| Packaging.NoCardsNoNotes | src/anki_cards/main.py:234-241 | a deck value no card has gets no notes |
| Packaging.NotesGrouped | src/anki_cards/main.py:234-241 | each deck holds exactly the accepted notes of its cards, in card order |
| Packaging.PackagedDecks | src/anki_cards/main.py:217-222 | the package has one deck per distinct deck value, each once, in first-seen order |
| Packaging.DeckIdsInRange | src/anki_cards/main.py:211-221 | every deck id lies in [2000000000, 2600000000) |
| Packaging.PackagedNotes | src/anki_cards/main.py:234-241 | each packaged deck holds the accepted notes of the cards naming it, in card order |
| Packaging.NoteFieldsFollowModel | src/anki_cards/main.py:226-240 | a note has one field per note-type field, in that order, `""` where the card has none, and the card's tags and GUID |
| Packaging.PackagedMedia | src/anki_cards/main.py:256-262 | the media list is strictly sorted, duplicate-free, holds exactly the given media, and is the only such list |
| Packaging.NothingWrittenWithoutCards | src/anki_cards/main.py:251-253 | no package is produced exactly when there are no cards |
| Packaging.GroupAllFailure | src/anki_cards/main.py:218-219 | the loop stops exactly when some deck value is unhashable, at the first one |
| Packaging.UnhashableDeckCrashes | src/anki_cards/main.py:218-219 | the call crashes exactly when some card's deck value is unhashable, naming the first |

## Left out

- YAML parsing (`yaml.safe_load`) is a foreign library: block bodies and the definition file reach the model already parsed, through a `parse` parameter and a `ModelSource` value.
- The file system is an oracle. `resolve` and `is_file` are the functions of a `FileSystem` value, `read_text` success is an optional content parameter, and paths are component sequences. Symbolic links, `..` handling and Windows paths are whatever the oracle says.
- `Path.relative_to` raises when the file is not under the root; the model requires `Under(root, file)` instead, as the caller only passes files found below the root.
- Python's salted `hash()` and `genanki.guid_for` are uninterpreted functions: only the numeric bounds of deck ids are proved, not their stability across runs.
- `genanki.Note`, `Deck.add_note`, `Package` and `write_to_file`, and `src/anki_cards/model.py`, are not part of this model. Whether a note is accepted is an oracle, and writing the archive (with its error logging) is not modelled.
- The command line (`_main`, `build_cards`, `src/anki_cards/cli.py`), the directory walk and all logging are I/O plumbing and are left out.
- An `include_filename` / `include_filename_in_deck` option appears only in tests, not in the code modelled, and is left out.
- Pydantic's own type coercion and "field required" errors are library behaviour; the model starts from well-typed definition data.
- Deck values are compared as YAML values. Python's cross-type equality (`1 == 1.0 == True`) is not modelled, so such values count as different decks.
- Strings.Lower: lower-cases ASCII letters only. This is exact for the comparisons with `tags` and `sourcefile`, but not for `lower()` in general.
- CardExtraction.FindAnkiCardsInFile: returns the file's media as a set rather than a list in hash order, because `list(set(…))` has no order the program relies on.
- Exceptions raised while processing images are not modelled. `resolve()` can raise on a symbolic-link loop or a NUL in the `src`, and `is_file()` can raise `PermissionError`. The source catches these per block (`except Exception`) and drops the whole block. In the model the `FileSystem` oracle is total, so such a block is accepted and its tag kept.
- LoadAndValidateModel: the re-raise of any other exception (a `PermissionError` on open, a `UnicodeDecodeError` while reading) has no outcome, because `ModelSource` only distinguishes a missing file, a YAML syntax error and parsed data.
- The `card_data.get("deck", "Default")` fallback is not modelled: every card record built by the extraction has a `deck` key.
