# obsidian-copy, modelled in Dafny

obsidian-copy copies the part of an Obsidian vault whose notes carry chosen
tags. A `Copier` is given include and exclude tag sets. `index` walks the
vault and tests every markdown note. A note is selected when its YAML
frontmatter lists a tag from the include set and no tag from the exclude
set. `copy` then copies the selected notes. A second module parses the text
of a `[[note#section|label]]` wiki link into its file, section and label
parts, and defines the state record a link scanner would keep.

This project models both source files of that core:

- `references.dfy` (module `References`, from `src/references.rs`)
  - `ObsidianNoteReference::from_str` is modelled as `FromStr`. The regular
    expression behind it is not run as a regex engine. It is written as a
    left-to-right split, `Capture`.
  - `Capture` is proved against an independent definition of the pattern:
    `Matches` is the set of ways the pattern can match the whole text, and
    `Before` is the regex crate's leftmost-first preference between two such
    matches. The contract of `Capture` and the lemma `CaptureFirst` prove that
    `Capture` returns exactly the match the regex crate reports. `CaptureNoneIff` proves it
    fails exactly when there is no match at all.
  - `RefParserState`, `RefType` and the `RefParser` class model
    `RefParser::new`, `transition` and `reset`.
- `strings.dfy` (module `Strings`) models Rust's `str::trim`. The whitespace
  set is the exact set that `char::is_whitespace` accepts.
- `lib.dfy` (module `Lib`, from `src/lib.rs`) models:
  - the loop that collects the metadata-block text (`CollectFrontmatter`,
    proved against `FrontmatterText`);
  - tag extraction (`ExtractTags`);
  - the include decision (`Include`);
  - `is_markdown_file`, with `Path::file_name` and `Path::extension` on `/`
    paths;
  - the `Copier` class with `new`, `include_tags`, `exclude_tags`,
    `test_note` and `index`. `index` is proved against the function
    `IndexRun`. Its per-file work is two methods: `IndexFile` (the
    markdown filter) and `Visit` (the closure given to `try_for_each`).
- `wrappers.dfy` (module `Wrappers`) holds `Option` and `Result`.

Names: the Rust field `label` is called `labelText`, because `label` is a
Dafny keyword. A `None` result of `FromStr` stands for the panic at
`src/references.rs:75`. A `None` result of `FrontmatterText` stands for the
panic at `src/lib.rs:131-134`. In `Copier`, that panic is the error
`UnexpectedFrontmatterEvent`, which ends the run like the other errors.

Four things the code does that a reader might not expect:

- `src/references.rs` is not compiled into the crate: `src/lib.rs:1` declares
  only `mod frontmatter;`, and `src/main.rs` declares no module. So nothing
  calls `from_str` or `RefParser`; this model describes what they would do.
- The code never bundles attachments and never resolves references. The
  attachment set at `src/lib.rs:111` is commented out. For a vault of `A.md`
  (tag `keep`, embeds `img.png`), `B.md` and `img.png`, filtered by `{keep}`,
  the code selects only `A.md`. `SelectionExample` proves this.
- The reference grammar is not total. A `#` or `|` with nothing after it
  makes `from_str` panic (`DanglingDelimiter`). So does a line feed anywhere
  after that `#` or `|` (`FailureIff`).
- A `|` splits the section from the label only if at least one section
  character comes before it and a label character comes after it. So
  `A#|x` has the section `|x` (`BarRightAfterHash`), and `A#B|` has the
  section `B|` (`BarAtEnd`).

## Model

| member | source | states |
|---|---|---|
| `References.FilePrefix` | src/references.rs:6 | the file group `[^#\|]+` takes the longest prefix with no `#` and no `\|`: a prefix of the text, free of both, followed by the end or by `#`/`\|` |
| `References.SectionEnd` | src/references.rs:6 | the lazy section group `.+?` stops at the first `\|` (after at least one section character) that has a non-empty label after it, else at the end of the text |
| `References.Capture` | src/references.rs:6 | whatever the split returns is a match of the anchored pattern on the whole text |
| `References.CaptureFirst` | src/references.rs:6 | if the pattern can match the text at all, the split succeeds, and no other match comes before its result in leftmost-first order |
| `References.CaptureNoneIff` | src/references.rs:6 | the split fails exactly when the pattern has no match on the text |
| `References.FileIsTrimmedPrefix` | src/references.rs:76 | `file` is absent exactly when the text is empty or starts with `#` or `\|`; when present it is the trimmed longest `#`/`\|`-free prefix |
| `References.FromStr` | src/references.rs:72-85 | `from_str` panics exactly when the pattern has no match; a file or section it returns has no whitespace at either end; a label it returns is non-empty and has no line feed |
| `References.EmptyText` | src/references.rs:6 | empty text parses, with file, section and label all absent |
| `References.NoDelimiters` | src/references.rs:76-78 | text with no `#` and no `\|` has no section and no label, and its file is the trimmed text (absent when the text is empty) |
| `References.FullForm` | src/references.rs:76-78 | `F#S\|L` gives file `trim(F)`, section `trim(S)` and label exactly `L` |
| `References.FileAndLabel` | src/references.rs:77 | `F\|L` gives label exactly `L`, untrimmed, even when `L` holds `#` or `\|`; there is no section |
| `References.BarRightAfterHash` | src/references.rs:6 | in `F#\|x`, the `\|` belongs to the section, so the section is `trim("\|x")` and there is no label |
| `References.BarAtEnd` | src/references.rs:6 | in `F#S\|`, a final `\|` belongs to the section, so the section is `trim("S\|")` and there is no label |
| `References.FailureIff` | src/references.rs:73-75 | `from_str` panics exactly when the text after the file part is a lone `#` or `\|`, or has a line feed anywhere after that `#` or `\|` |
| `References.DanglingDelimiter` | src/references.rs:73-75 | `A#`, `A\|` and `\|` (a delimiter with nothing after it) make `from_str` panic |
| `References.RefParser.constructor` | src/references.rs:52-58 | a new parser is in `NoState`, with no reference type and empty reference text |
| `References.RefParser.Transition` | src/references.rs:60-62 | sets the state to the given one and leaves reference type and text unchanged |
| `References.RefParser.Reset` | src/references.rs:64-68 | state back to `NoState`, reference type to none, reference text to empty |
| `Strings.TrimStart` | src/references.rs:76 | `trim_start` drops a run of leading whitespace and nothing else: the result is a suffix, every dropped character is whitespace, and the result does not start with whitespace |
| `Strings.TrimEnd` | src/references.rs:76 | `trim_end` drops a run of trailing whitespace and nothing else: the result is a prefix, every dropped character is whitespace, and the result does not end with whitespace |
| `Strings.Trim` | src/references.rs:76-78 | `trim` never lengthens a string, and its result neither starts nor ends with whitespace |
| `Strings.TrimIsSlice` | src/references.rs:76-78 | `trim` keeps a contiguous slice that neither starts nor ends with whitespace, and cuts off only whitespace around it |
| `Strings.TrimIdempotent` | src/references.rs:76-78 | trimming a trimmed part changes nothing |
| `Lib.FrontmatterText` | src/lib.rs:122-138 | a stream with no metadata block start, read from outside a block, gives empty metadata text; the panic needs a block, either open already or started in the stream |
| `Lib.CollectFrontmatter` | src/lib.rs:122-138 | the collection loop returns the metadata text of the whole event stream, or the panic, as `FrontmatterText` defines them |
| `Lib.OutsideIgnored` | src/lib.rs:122-124 | events before any metadata block starts contribute nothing |
| `Lib.BlockThenRest` | src/lib.rs:124-130 | a closed block contributes its text events in order, and collection goes on after its end |
| `Lib.TwoBlocks` | src/lib.rs:122-138 | the texts of several blocks are concatenated in stream order |
| `Lib.UnclosedBlock` | src/lib.rs:125-137 | a block still open when the stream ends is not an error; its text is kept |
| `Lib.UnexpectedEventInBlock` | src/lib.rs:131-134 | a block start or any non-text event inside a block is fatal |
| `Lib.StringsOf` | src/lib.rs:144-153 | the kept tags are at most as many as the elements, and a string is kept exactly when it is a string element |
| `Lib.StringsOfAppend` | src/lib.rs:144-153 | string elements keep their order (the filter distributes over concatenation) |
| `Lib.StringsOfAllStrings` | src/lib.rs:144-153 | a sequence holding only strings yields exactly those strings, in order |
| `Lib.ExtractTags` | src/lib.rs:143-155 | the tags are the string elements of the `tags` sequence; none when `tags` is missing or not a sequence |
| `Lib.AnyIn` | src/lib.rs:157-158 | `any(\|tag\| set.contains(tag))` holds exactly when some tag is in the set |
| `Lib.Include` | src/lib.rs:157-158 | a note is selected exactly when some tag is included and no tag is excluded |
| `Lib.IncludeNeedsBoth` | src/lib.rs:157-158 | an empty include set selects nothing, and neither does an empty tag list |
| `Lib.IncludeExamples` | src/lib.rs:157-158 | tags `a`, `b` are selected by `{b}`, and not once `a` is excluded |
| `Lib.LastIndexOf` | src/lib.rs:196 | finds the last occurrence of a character, or reports that there is none |
| `Lib.FileName` | src/lib.rs:196 | a file name is never empty, `.` or `..` and holds no `/` |
| `Lib.Extension` | src/lib.rs:196 | an extension is the text after a `.` of the file name that is not the name's first character and is followed by no other `.`; a file name with a `.` after its first character always has one |
| `Lib.IsMarkdownFile` | src/lib.rs:194-198 | a path is markdown exactly when its file name ends in `.md` with at least one character before it (case-sensitive) |
| `Lib.FileNameOfJoin` | src/lib.rs:196 | the file name of `dir/name` is `name` |
| `Lib.FileNameTrailingSlash` | src/lib.rs:196 | a trailing `/` does not change the file name |
| `Lib.MarkdownName` | src/lib.rs:194-198 | `dir/x.md` is markdown, also with a trailing `/` |
| `Lib.NotMarkdownName` | src/lib.rs:194-198 | a name that does not end in `.md` (`A.MD`, `img.png`, `md`) is not markdown |
| `Lib.HiddenMdNotMarkdown` | src/lib.rs:194-198 | a file named just `.md` has no extension, so it is not markdown |
| `Lib.NoteVerdict` | src/lib.rs:108-161 | every error names the note; the result is the read error exactly when the note cannot be read |
| `Lib.NoteSelected` | src/lib.rs:109-158 | a note is selected exactly when it was read, its metadata collected and decoded, and one of its tags is included and none excluded |
| `Lib.NoMetadataNotSelected` | src/lib.rs:109-158 | a readable note with no metadata block is not selected and raises no error, given that empty metadata text decodes as the empty mapping |
| `Lib.IndexRun` | src/lib.rs:95-106 | a run inserts only files of the vault listing |
| `Lib.IndexInsertsOnlySelected` | src/lib.rs:95-106 | `index` inserts only markdown files of the vault whose test returns true |
| `Lib.IndexOkIff` | src/lib.rs:99-104 | `index` succeeds exactly when the test succeeds on every markdown file |
| `Lib.IndexOkExact` | src/lib.rs:95-106 | a successful `index` inserts exactly the selected markdown files |
| `Lib.FirstFailure` | src/lib.rs:99-104 | gives the position of the first markdown file whose test fails (every markdown file before it passes), or the length when none fails |
| `Lib.IndexStopsAtFirstError` | src/lib.rs:99-104 | a failed `index` returns the first failing file's error and inserts exactly the selected files before it |
| `Lib.IndexOnlyMarkdown` | src/lib.rs:98 | a non-markdown file is never inserted |
| `Lib.SelectionExample` | src/lib.rs:95-111 | with `A.md` (tag `keep`, embeds `img.png`), `B.md` (tag `drop`) and `img.png`, filtered by `{keep}`, only `A.md` is inserted |
| `Lib.Copier.constructor` | src/lib.rs:72-80 | a new copier has empty include, exclude and copy sets |
| `Lib.Copier.IncludeTags` | src/lib.rs:83-86 | adds the given tags to the include set and changes no other field |
| `Lib.Copier.ExcludeTags` | src/lib.rs:89-92 | adds the given tags to the exclude set and changes no other field |
| `Lib.Copier.TestNote` | src/lib.rs:108-161 | the outcome is the read error, the metadata panic, the decode error, or the include decision on the extracted tags, in that order |
| `Lib.Copier.Visit` | src/lib.rs:99-104 | fails exactly when the note's test fails, with that error; the note is added to the copy set exactly when it is selected |
| `Lib.Copier.IndexFile` | src/lib.rs:98-104 | a file that is not markdown is skipped; otherwise as `Visit` |
| `Lib.Copier.Index` | src/lib.rs:95-106 | the copy set only grows, by exactly what `IndexRun` inserts, and the result is the run's first error, if any |

## Left out

- `vault_contents` (`src/lib.rs:181-192`) walks the file system. The vault is a parameter of `Index`: a sequence of paths, standing for one iteration order of the `HashSet` it returns. Its `WalkDirError` is not modelled.
- `Copier::copy` (`src/lib.rs:163-176`) is file I/O (`fs::copy`, `strip_prefix`). It is not modelled. The `root` and `destination` fields are kept but only stored.
- Reading a note (`src/lib.rs:109`) and the pulldown_cmark tokenizer (`src/lib.rs:113-120`) are external. Together they are the parameter `Env.read`, which gives a note's events or `None` for a read error. Events are abstract: metadata-block start, block end, text, and any other event.
- `src/frontmatter.rs` and serde_yaml are external. They are the parameter `Env.decode`, with `None` for a decode error. The rule of `src/frontmatter.rs:9-11`, that empty text decodes as `{}`, is not built into `Env.decode`; `NoMetadataNotSelected` takes it as a precondition. YAML values are abstract: string, sequence, or any other value. Mapping keys are strings; a non-string key can never be `tags`.
- The regex engine and `LazyLock` (`src/references.rs:1-7`) are replaced by the derived split, which is proved against the pattern's language and match order.
- The token-driven transition table that would drive `RefParser` is not part of this model. Only its fields and `new`, `transition` and `reset` exist in `src/references.rs`. Reference resolution, Unicode normalisation and attachment bundling are not part of this model either, because the code has none of them.
- `src/main.rs` (command-line parsing) is not part of this model.
- Paths use `/` separators, as on Unix; Windows prefixes are not modelled. `to_string_lossy` is not modelled, since the paths are strings already.
- `Lib.Copier.IncludeTags`: the Rust method returns `&mut Self` for chaining; the model returns nothing.
- `Lib.Copier.ExcludeTags`: the Rust method returns `&mut Self` for chaining; the model returns nothing.
- `Lib.Copier.TestNote`: the panic in the metadata loop (`src/lib.rs:131-134`) is modelled as the error `UnexpectedFrontmatterEvent`, which the Rust `CopyError` does not have. A panic ends the program, so `index` never returns; in the model, `Index` returns that error and stops, like after any other error.
